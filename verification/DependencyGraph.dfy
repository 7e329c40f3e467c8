/** Dependency graphs: paths, cycles, and the depth-first admission check that every
    planner runs before it trusts a graph. */
module DependencyGraph {
  import opened Prelude
  import opened Ordering

  /** Each node with the identifiers it depends on, in the order they are written. */
  type Graph = map<string, seq<string>>

  predicate Closed(g: Graph) {
    forall n :: n in g ==> forall d :: d in g[n] ==> d in g
  }

  predicate Edge(g: Graph, a: string, b: string) {
    a in g && b in g && b in g[a]
  }

  predicate IsPath(g: Graph, p: seq<string>) {
    forall i :: 0 <= i < |p| - 1 ==> Edge(g, p[i], p[i + 1])
  }

  predicate Connects(g: Graph, p: seq<string>, a: string, b: string) {
    |p| >= 2 && p[0] == a && p[|p| - 1] == b && IsPath(g, p)
  }

  /** a depends on b through one or more edges. */
  ghost predicate DependsOn(g: Graph, a: string, b: string) {
    exists p :: Connects(g, p, a, b)
  }

  ghost predicate Acyclic(g: Graph) {
    forall n :: n in g ==> !DependsOn(g, n, n)
  }

  /** Everything a node depends on. */
  ghost function Below(g: Graph, n: string): set<string> {
    set m | m in g && DependsOn(g, n, m)
  }

  // ----- Paths -----

  lemma EdgeConnects(g: Graph, a: string, b: string)
    requires Edge(g, a, b)
    ensures DependsOn(g, a, b)
  {
    assert Connects(g, [a, b], a, b);
  }

  lemma DependsOnTransitive(g: Graph, a: string, b: string, c: string)
    requires DependsOn(g, a, b) && DependsOn(g, b, c)
    ensures DependsOn(g, a, c)
  {
    var p :| Connects(g, p, a, b);
    var q :| Connects(g, q, b, c);
    var r := p + q[1..];
    forall i | 0 <= i < |r| - 1 ensures Edge(g, r[i], r[i + 1]) {
      if i >= |p| - 1 {
        assert r[i] == q[i - |p| + 1] && r[i + 1] == q[i - |p| + 2];
      }
    }
    assert Connects(g, r, a, c);
  }

  /** The first step of a dependency, and what remains of it. */
  lemma FirstStep(g: Graph, a: string, b: string) returns (m: string)
    requires DependsOn(g, a, b)
    ensures Edge(g, a, m) && (m == b || DependsOn(g, m, b))
  {
    var p :| Connects(g, p, a, b);
    m := p[1];
    assert Edge(g, p[0], p[1]);
    if |p| > 2 {
      forall i | 0 <= i < |p[1..]| - 1 ensures Edge(g, p[1..][i], p[1..][i + 1]) {
        assert Edge(g, p[i + 1], p[i + 2]);
      }
      assert Connects(g, p[1..], m, b);
    }
  }

  /** On an acyclic graph a dependency has strictly less below it: the measure along which
      every recursion over dependencies descends. */
  lemma EdgeDescends(g: Graph, a: string, b: string)
    requires Acyclic(g) && Edge(g, a, b)
    ensures Below(g, b) < Below(g, a)
  {
    EdgeConnects(g, a, b);
    assert b in Below(g, a) && b !in Below(g, b);
    forall m | m in Below(g, b) ensures m in Below(g, a) {
      DependsOnTransitive(g, a, b, m);
    }
  }

  // ----- Subgraphs -----

  ghost predicate Subgraph(g: Graph, h: Graph) {
    forall a, b :: Edge(g, a, b) ==> Edge(h, a, b)
  }

  lemma SubgraphPath(g: Graph, h: Graph, a: string, b: string)
    requires Subgraph(g, h) && DependsOn(g, a, b)
    ensures DependsOn(h, a, b)
  {
    var p :| Connects(g, p, a, b);
    forall i | 0 <= i < |p| - 1 ensures Edge(h, p[i], p[i + 1]) {
      assert Edge(g, p[i], p[i + 1]);
    }
    assert Connects(h, p, a, b);
  }

  lemma SubgraphAcyclic(g: Graph, h: Graph)
    requires Subgraph(g, h) && Acyclic(h) && g.Keys <= h.Keys
    ensures Acyclic(g)
  {
    forall n | n in g ensures !DependsOn(g, n, n) {
      if DependsOn(g, n, n) { SubgraphPath(g, h, n, n); }
    }
  }

  // ----- Finishing orders -----

  /** Each node of the order is in the graph, after everything it depends on. */
  ghost predicate Finished(g: Graph, order: seq<string>) {
    forall i :: 0 <= i < |order| ==>
      order[i] in g && forall d :: d in g[order[i]] && d in g ==> d in order[..i]
  }

  /** Along a path, positions in a finishing order fall at every step. */
  lemma {:induction false} PathDescends(g: Graph, order: seq<string>, p: seq<string>, i: nat) returns (j: nat)
    requires Finished(g, order) && |p| >= 1 && IsPath(g, p)
    requires i < |order| && order[i] == p[0]
    ensures j < |order| && order[j] == p[|p| - 1] && j + |p| - 1 <= i
    decreases |p|
  {
    if |p| == 1 {
      j := i;
    } else {
      assert Edge(g, p[0], p[1]);
      var k :| 0 <= k < |order[..i]| && order[..i][k] == p[1];
      forall x | 0 <= x < |p[1..]| - 1 ensures Edge(g, p[1..][x], p[1..][x + 1]) {
        assert Edge(g, p[x + 1], p[x + 2]);
      }
      j := PathDescends(g, order, p[1..], k);
    }
  }

  /** A cycle could be followed down the finishing order for ever. */
  lemma {:induction false} NoCycleThrough(g: Graph, order: seq<string>, p: seq<string>, n: string, i: nat)
    requires Finished(g, order) && Connects(g, p, n, n)
    requires i < |order| && order[i] == n
    ensures false
    decreases i
  {
    var j := PathDescends(g, order, p, i);
    NoCycleThrough(g, order, p, n, j);
  }

  lemma FinishedMeansAcyclic(g: Graph, order: seq<string>)
    requires Finished(g, order) && forall n :: n in g ==> n in order
    ensures Acyclic(g)
  {
    forall n | n in g ensures !DependsOn(g, n, n) {
      if DependsOn(g, n, n) {
        var p :| Connects(g, p, n, n);
        var i :| 0 <= i < |order| && order[i] == n;
        NoCycleThrough(g, order, p, n, i);
      }
    }
  }

  // ----- The closure check -----

  /** Names a node with a dependency outside the graph, if there is one. */
  method DanglingDependency(g: Graph) returns (dangling: Option<string>)
    ensures dangling.None? <==> Closed(g)
    ensures dangling.Some? ==> dangling.value in g && exists d :: d in g[dangling.value] && d !in g
  {
    var todo := g.Keys;
    while todo != {}
      invariant todo <= g.Keys
      invariant forall n :: n in g && n !in todo ==> forall d :: d in g[n] ==> d in g
      decreases todo
    {
      var n :| n in todo;
      if exists d :: d in g[n] && d !in g {
        return Some(n);
      }
      todo := todo - {n};
    }
    return None;
  }

  // ----- The depth-first admission check -----

  /** The nodes of the trail are exactly those being visited, and it leads to n. */
  ghost predicate LeadsTo(g: Graph, trail: seq<string>, visiting: set<string>, n: string) {
    (forall m :: m in visiting <==> m in trail) && IsPath(g, trail + [n])
  }

  /** Meeting a node that is being visited closes a cycle. */
  lemma BackEdgeClosesCycle(g: Graph, trail: seq<string>, n: string)
    requires n in trail && IsPath(g, trail + [n])
    ensures DependsOn(g, n, n)
  {
    var i :| 0 <= i < |trail| && trail[i] == n;
    var p := (trail + [n])[i..];
    forall k | 0 <= k < |p| - 1 ensures Edge(g, p[k], p[k + 1]) {
      assert Edge(g, (trail + [n])[i + k], (trail + [n])[i + k + 1]);
    }
    assert Connects(g, p, n, n);
  }

  lemma LeadsFurther(g: Graph, trail: seq<string>, visiting: set<string>, n: string, d: string)
    requires LeadsTo(g, trail, visiting, n) && Edge(g, n, d)
    ensures LeadsTo(g, trail + [n], visiting + {n}, d)
  {
    var p := trail + [n] + [d];
    forall i | 0 <= i < |p| - 1 ensures Edge(g, p[i], p[i + 1]) {
      if i < |trail| {
        assert p[i] == (trail + [n])[i] && p[i + 1] == (trail + [n])[i + 1];
      }
    }
  }

  lemma FinishOne(g: Graph, order: seq<string>, n: string)
    requires Finished(g, order) && n in g
    requires forall d :: d in g[n] && d in g ==> d in order
    ensures Finished(g, order + [n])
  {
    var longer := order + [n];
    forall i | 0 <= i < |longer|
      ensures longer[i] in g && forall d :: d in g[longer[i]] && d in g ==> d in longer[..i]
    {
      if i < |order| {
        assert longer[..i] == order[..i];
      } else {
        assert longer[..i] == order;
      }
    }
  }

  /** The two sets that the recursive visit updates; the finishing order is kept for the proof. */
  class Admission {
    const g: Graph
    var visiting: set<string>
    var done: set<string>
    ghost var order: seq<string>

    constructor (g: Graph)
      ensures this.g == g && Valid() && visiting == {} && done == {}
    {
      this.g := g;
      visiting, done, order := {}, {}, [];
    }

    ghost predicate Valid()
      reads this
    {
      && visiting <= g.Keys
      && done <= g.Keys
      && visiting !! done
      && (forall n :: n in done <==> n in order)
      && Finished(g, order)
    }

    method Visit(n: string, ghost trail: seq<string>) returns (cycle: Option<string>)
      requires Valid() && Closed(g) && n in g
      requires LeadsTo(g, trail, visiting, n)
      modifies this
      ensures cycle.None? ==> Valid() && visiting == old(visiting) && done >= old(done) + {n}
      ensures cycle.Some? ==> cycle.value in g && DependsOn(g, cycle.value, cycle.value)
      decreases g.Keys - visiting - done
    {
      if n in visiting {
        BackEdgeClosesCycle(g, trail, n);
        return Some(n);
      }
      if n in done {
        return None;
      }
      visiting := visiting + {n};
      for i := 0 to |g[n]|
        invariant Valid() && visiting == old(visiting) + {n} && done >= old(done)
        invariant n !in done && forall k :: 0 <= k < i ==> g[n][k] in done
      {
        LeadsFurther(g, trail, old(visiting), n, g[n][i]);
        assert n in g.Keys - old(visiting) - old(done);
        var found := Visit(g[n][i], trail + [n]);
        if found.Some? {
          return found;
        }
      }
      visiting := visiting - {n};
      FinishOne(g, order, n);
      done, order := done + {n}, order + [n];
      return None;
    }
  }

  /** The check accepts exactly the acyclic graphs, and names a node on a cycle otherwise. */
  method CheckAcyclic(g: Graph) returns (cycle: Option<string>)
    requires Closed(g)
    ensures cycle.None? <==> Acyclic(g)
    ensures cycle.Some? ==> cycle.value in g && DependsOn(g, cycle.value, cycle.value)
  {
    var admission := new Admission(g);
    var nodes := SortedIds(g.Keys);
    for i := 0 to |nodes|
      invariant fresh(admission) && admission.g == g && admission.Valid() && admission.visiting == {}
      invariant forall k :: 0 <= k < i ==> nodes[k] in admission.done
    {
      assert nodes[i] in nodes;
      cycle := admission.Visit(nodes[i], []);
      if cycle.Some? {
        return;
      }
    }
    FinishedMeansAcyclic(g, admission.order);
    return None;
  }

  // ----- Dependents -----

  /** For each node the set of nodes that name it as a dependency. */
  method ReverseEdges(g: Graph) returns (reverse: map<string, set<string>>)
    requires Closed(g)
    ensures reverse.Keys == g.Keys
    ensures forall a, b :: a in reverse ==> (b in reverse[a] <==> Edge(g, b, a))
  {
    reverse := map n | n in g :: {};
    var todo := g.Keys;
    while todo != {}
      invariant reverse.Keys == g.Keys && todo <= g.Keys
      invariant forall a, b :: a in reverse ==> (b in reverse[a] <==> Edge(g, b, a) && b !in todo)
      decreases todo
    {
      var n :| n in todo;
      ghost var before := reverse;
      for i := 0 to |g[n]|
        invariant reverse.Keys == g.Keys
        invariant forall a, b :: a in reverse && b != n ==> (b in reverse[a] <==> b in before[a])
        invariant forall a :: a in reverse ==> (n in reverse[a] <==> a in g[n][..i])
      {
        var d := g[n][i];
        assert g[n][..i + 1] == g[n][..i] + [d];
        reverse := reverse[d := reverse[d] + {n}];
      }
      assert g[n][..|g[n]|] == g[n];
      todo := todo - {n};
    }
  }

  /** Whatever contains the dependents of c, and the dependents of its own members, contains
      everything that depends on c. */
  lemma {:induction false} DependentsClosed(g: Graph, s: set<string>, c: string, p: seq<string>, n: string)
    requires forall b :: Edge(g, b, c) ==> b in s
    requires forall a, b :: a in s && Edge(g, b, a) ==> b in s
    requires Connects(g, p, n, c)
    ensures n in s
    decreases |p|
  {
    assert Edge(g, p[0], p[1]);
    if |p| > 2 {
      forall i | 0 <= i < |p[1..]| - 1 ensures Edge(g, p[1..][i], p[1..][i + 1]) {
        assert Edge(g, p[i + 1], p[i + 2]);
      }
      DependentsClosed(g, s, c, p[1..], p[1]);
    }
  }

  /** The worklist collects exactly the nodes that depend on c. */
  method Descendants(c: string, reverse: map<string, set<string>>, ghost g: Graph) returns (seen: set<string>)
    requires c in g && reverse.Keys == g.Keys
    requires forall a, b :: a in reverse ==> (b in reverse[a] <==> Edge(g, b, a))
    ensures forall n :: n in seen <==> DependsOn(g, n, c)
  {
    seen := {};
    var stack := DescendingIds(reverse[c]);
    forall b | b in stack ensures DependsOn(g, b, c) { EdgeConnects(g, b, c); }
    while stack != []
      invariant seen <= g.Keys
      invariant forall b :: b in stack ==> b in g && DependsOn(g, b, c)
      invariant forall b :: b in seen ==> DependsOn(g, b, c)
      invariant forall b :: Edge(g, b, c) ==> b in seen || b in stack
      invariant forall a, b :: a in seen && Edge(g, b, a) ==> b in seen || b in stack
      decreases g.Keys - seen, |stack|
    {
      var node := stack[|stack| - 1];
      ghost var full := stack;
      stack := stack[..|stack| - 1];
      assert full == stack + [node];
      if node !in seen {
        seen := seen + {node};
        var more := DescendingIds(reverse[node]);
        forall b | b in more ensures DependsOn(g, b, c) {
          EdgeConnects(g, b, node);
          DependsOnTransitive(g, b, node, c);
        }
        stack := stack + more;
      }
    }
    forall n | DependsOn(g, n, c) ensures n in seen {
      var p :| Connects(g, p, n, c);
      DependentsClosed(g, seen, c, p, n);
    }
  }
}
