/** The release verifier's cycle scan, which does not stop at a back edge but records the
    trail that closed it and carries on. */
module CycleScan {
  import opened DependencyGraph

  ghost predicate NoRepetition(s: seq<string>) {
    forall i, j :: 0 <= i < j < |s| ==> s[i] != s[j]
  }

  /** A dependency path that comes back, with its last node and not before, to a node on it. */
  ghost predicate CycleTrail(g: Graph, t: seq<string>) {
    |t| >= 2 && IsPath(g, t) && t[|t| - 1] in t[..|t| - 1] && NoRepetition(t[..|t| - 1])
  }

  /** A place where a dependency is written: the node, and the position in its list. */
  type Place = (string, nat)

  /** The last step of a trail is the dependency written at this place. */
  predicate Closes(g: Graph, t: seq<string>, at: Place) {
    && |t| >= 2 && at.0 in g && at.1 < |g[at.0]|
    && t[|t| - 2] == at.0 && t[|t| - 1] == g[at.0][at.1]
  }

  /** Each trail is closed at a place of its own. */
  ghost predicate ClosedAt(g: Graph, errors: seq<seq<string>>, places: seq<Place>) {
    && |places| == |errors|
    && (forall k :: 0 <= k < |errors| ==> Closes(g, errors[k], places[k]))
    && (forall j, k :: 0 <= j < k < |places| ==> places[j] != places[k])
  }

  ghost predicate ReportedOnce(g: Graph, errors: seq<seq<string>>) {
    exists places :: ClosedAt(g, errors, places)
  }

  lemma OneMoreClosed(g: Graph, errors: seq<seq<string>>, places: seq<Place>, t: seq<string>, at: Place)
    requires ClosedAt(g, errors, places) && Closes(g, t, at) && at !in places
    ensures ClosedAt(g, errors + [t], places + [at])
  {
  }

  lemma CycleTrailIsCycle(g: Graph, t: seq<string>)
    requires CycleTrail(g, t)
    ensures t[|t| - 1] in g && DependsOn(g, t[|t| - 1], t[|t| - 1])
  {
    var n := t[|t| - 1];
    assert t[..|t| - 1] + [n] == t;
    BackEdgeClosesCycle(g, t[..|t| - 1], n);
    assert Edge(g, t[|t| - 2], t[|t| - 1]);
  }

  class Scan {
    const byId: Graph
    var errors: seq<seq<string>>
    var visiting: set<string>
    var visited: set<string>
    ghost var order: seq<string>
    ghost var places: seq<Place>

    constructor (byId: Graph)
      ensures this.byId == byId && Valid() && visiting == {} && visited == {} && errors == []
    {
      this.byId := byId;
      errors, visiting, visited, order, places := [], {}, {}, [], [];
    }

    /** Every recorded error is a real cycle closed at a place of its own, and as long as none
        is recorded the visited nodes have a finishing order. */
    ghost predicate Valid()
      reads this
    {
      && visiting <= byId.Keys
      && visited <= byId.Keys
      && visiting !! visited
      && (forall t :: t in errors ==> CycleTrail(byId, t))
      && ClosedAt(byId, errors, places) && (forall p :: p in places ==> p.0 in visiting + visited)
      && (errors == [] ==> Finished(byId, order) && forall n :: n in visited <==> n in order)
    }

    /** Records the trail that a dependency on a node being visited closes. */
    method Report(node: string, trail: seq<string>, ghost at: nat)
      requires Valid() && node in visiting
      requires LeadsTo(byId, trail, visiting, node) && NoRepetition(trail) && trail != []
      requires Closes(byId, trail + [node], (trail[|trail| - 1], at)) && (trail[|trail| - 1], at) !in places
      modifies this`errors, this`places
      ensures Valid() && errors == old(errors) + [trail + [node]]
      ensures places == old(places) + [(trail[|trail| - 1], at)]
    {
      var closed := trail + [node];
      assert closed[..|closed| - 1] == trail;
      assert trail[|trail| - 1] in trail;
      OneMoreClosed(byId, errors, places, closed, (trail[|trail| - 1], at));
      errors, places := errors + [closed], places + [(trail[|trail| - 1], at)];
    }

    /** The node is visited for the dependency written at the given place of the last node of
        the trail, at which nothing has been reported yet. */
    method Visit(node: string, trail: seq<string>, ghost at: nat)
      requires Valid() && node in byId
      requires LeadsTo(byId, trail, visiting, node) && NoRepetition(trail)
      requires trail != [] ==>
                 Closes(byId, trail + [node], (trail[|trail| - 1], at)) && (trail[|trail| - 1], at) !in places
      modifies this
      ensures Valid() && visiting == old(visiting) && visited >= old(visited)
      ensures old(errors) <= errors && (node in visited || errors != [])
      ensures forall p :: p in places ==>
                p in old(places) || p.0 !in old(visiting) + old(visited) ||
                (trail != [] && p == (trail[|trail| - 1], at))
      decreases byId.Keys - visiting - visited, 0
    {
      if node in visited {
        return;
      }
      if node in visiting {
        Report(node, trail, at);
        return;
      }
      visiting := visiting + {node};
      assert node in byId.Keys - old(visiting) - old(visited);
      VisitDependencies(node, trail);
      visiting := visiting - {node};
      if errors == [] {
        FinishOne(byId, order, node);
      }
      visited, order := visited + {node}, order + [node];
    }

    /** Visits the dependencies of a node in the order they are written. */
    method VisitDependencies(node: string, trail: seq<string>)
      requires Valid() && node in visiting && node !in trail
      requires LeadsTo(byId, trail, visiting - {node}, node) && NoRepetition(trail)
      requires forall p :: p in places ==> p.0 != node
      modifies this
      ensures Valid() && visiting == old(visiting) && visited >= old(visited) && node !in visited
      ensures old(errors) <= errors
      ensures errors == [] ==> forall d :: d in byId[node] && d in byId ==> d in visited
      ensures forall p :: p in places ==> p in old(places) || p.0 == node || p.0 !in old(visiting) + old(visited)
      decreases byId.Keys - visiting - visited, 1
    {
      assert visiting - {node} + {node} == visiting;
      for i := 0 to |byId[node]|
        invariant Valid() && visiting == old(visiting) && visited >= old(visited)
        invariant node !in visited && old(errors) <= errors
        invariant errors == [] ==> forall k :: 0 <= k < i && byId[node][k] in byId ==> byId[node][k] in visited
        invariant forall p :: p in places ==>
                    p in old(places) || (p.0 == node && p.1 < i) || p.0 !in old(visiting) + old(visited)
      {
        var dep := byId[node][i];
        if dep in byId {
          LeadsFurther(byId, trail, visiting - {node}, node, dep);
          Visit(dep, trail + [node], i);
        }
      }
    }
  }

  /** The scan reports something exactly when the graph has a cycle, even though it goes on
      after the first back edge. It reports only real cycles, each at its first return to a
      node, and none twice for the same written dependency. Dependencies that are not in the
      table are skipped. */
  method Cycles(byId: Graph) returns (errors: seq<seq<string>>)
    ensures errors == [] <==> Acyclic(byId)
    ensures forall t :: t in errors ==> CycleTrail(byId, t)
    ensures ReportedOnce(byId, errors)
  {
    var scan := new Scan(byId);
    var todo := byId.Keys;
    while todo != {}
      invariant fresh(scan) && scan.byId == byId && scan.Valid() && scan.visiting == {} && todo <= byId.Keys
      invariant scan.errors == [] ==> forall n :: n in byId && n !in todo ==> n in scan.visited
      decreases todo
    {
      var node :| node in todo;
      scan.Visit(node, [], 0);
      todo := todo - {node};
    }
    errors := scan.errors;
    assert ClosedAt(byId, errors, scan.places);
    if errors == [] {
      FinishedMeansAcyclic(byId, scan.order);
    } else {
      CycleTrailIsCycle(byId, errors[0]);
    }
  }
}
