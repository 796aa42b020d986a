/** Depth-first search of the graph view (`handleDFS`, GraphVisualizer.jsx,
    lines 303-323), and the reachability it computes. */
module Dfs {
  import opened Optional
  import opened Graph
  import opened Adjacency

  // ---------------------------------------------------------------------
  // Reachability, defined independently of any search

  /** `p` walks along adjacency lists. */
  ghost predicate IsPath(adj: Adj, p: seq<string>) {
    |p| >= 1 && forall i :: 0 <= i < |p| - 1 ==> p[i] in adj && p[i + 1] in adj[p[i]]
  }

  /** Some walk leads from `a` to `b`. */
  ghost predicate Reaches(adj: Adj, a: string, b: string) {
    exists p :: IsPath(adj, p) && p[0] == a && p[|p| - 1] == b
  }

  lemma ReachesSelf(adj: Adj, a: string)
    ensures Reaches(adj, a, a)
  {
    assert IsPath(adj, [a]);
  }

  /** A walk from a neighbour is a walk from the node. */
  lemma ReachesThrough(adj: Adj, a: string, b: string, c: string)
    requires a in adj && b in adj[a] && Reaches(adj, b, c)
    ensures Reaches(adj, a, c)
  {
    var p :| IsPath(adj, p) && p[0] == b && p[|p| - 1] == c;
    var q := [a] + p;
    assert forall i :: 1 <= i < |q| ==> q[i] == p[i - 1];
    assert IsPath(adj, q);
  }

  predicate InKeys(adj: Adj, s: seq<string>) {
    forall k :: 0 <= k < |s| ==> s[k] in adj
  }

  /** Every node of `r` from position `lo` on has all its neighbours in `r`. */
  predicate Complete(adj: Adj, r: seq<string>, lo: nat)
    requires InKeys(adj, r)
  {
    forall k, i :: lo <= k < |r| && 0 <= i < |adj[r[k]]| ==> adj[r[k]][i] in r
  }

  /** A sequence that holds `a` and all neighbours of all its nodes holds
      everything reachable from `a`. */
  lemma {:induction false} ClosedHoldsReachable(adj: Adj, r: seq<string>, a: string, b: string)
    requires InKeys(adj, r) && Complete(adj, r, 0) && a in r && Reaches(adj, a, b)
    ensures b in r
  {
    var p :| IsPath(adj, p) && p[0] == a && p[|p| - 1] == b;
    var i := 0;
    while i < |p| - 1
      invariant 0 <= i < |p| && p[i] in r
    {
      var k :| 0 <= k < |r| && r[k] == p[i];
      assert p[i] in adj && p[i + 1] in adj[p[i]];
      var j :| 0 <= j < |adj[p[i]]| && adj[p[i]][j] == p[i + 1];
      assert adj[r[k]][j] in r;
      i := i + 1;
    }
  }

  lemma {:induction false} DistinctBound(s: seq<string>, k: set<string>)
    requires Distinct(s) && forall i :: 0 <= i < |s| ==> s[i] in k
    ensures |s| <= |k|
  {
    if |s| > 0 {
      DistinctBound(s[1..], k - {s[0]});
    }
  }

  // ---------------------------------------------------------------------
  // The search

  /** `r` keeps `ord` as its prefix. */
  predicate Grows(ord: seq<string>, r: seq<string>) {
    |ord| <= |r| && r[..|ord|] == ord
  }

  /** Every node `r` added after position `lo` is reachable from `a`. */
  ghost predicate ReachedFrom(adj: Adj, a: string, r: seq<string>, lo: nat) {
    forall k :: lo <= k < |r| ==> Reaches(adj, a, r[k])
  }

  /** Every node `r` added after position `lo` is reachable from some node of `ns`. */
  ghost predicate ReachedFromAny(adj: Adj, ns: seq<string>, r: seq<string>, lo: nat) {
    forall k :: lo <= k < |r| ==> exists j :: 0 <= j < |ns| && Reaches(adj, ns[j], r[k])
  }

  /** What a finished call leaves: `ord` grown by distinct nodes, each of
      them with all its neighbours already visited. */
  predicate Visits(adj: Adj, ord: seq<string>, r: seq<string>) {
    Grows(ord, r) && Distinct(r) && InKeys(adj, r) && Complete(adj, r, |ord|)
  }

  /** The inner `dfs(node)`: skip a visited node; otherwise record it and
      descend into its neighbours in adjacency order. The source's `!node`
      test never fires: under the `NodesOk` that `HandleDfs` requires, node
      ids are never empty (`Adjacency.NoEmptyIds`). */
  function Visit(adj: Adj, u: string, ord: seq<string>): (r: seq<string>)
    requires Closed(adj) && u in adj && Distinct(ord) && InKeys(adj, ord)
    ensures Visits(adj, ord, r) && u in r
    ensures u in ord ==> r == ord
    ensures u !in ord ==> r[|ord|] == u
    ensures ReachedFrom(adj, u, r, |ord|)
    decreases |adj.Keys| - |ord|, 0, 0
  {
    if u in ord then ord
    else
      var o := ord + [u];
      DistinctBound(o, adj.Keys);
      var r := VisitAll(adj, adj[u], o);
      VisitStep(adj, u, ord, r);
      r
  }

  lemma VisitStep(adj: Adj, u: string, ord: seq<string>, r: seq<string>)
    requires Closed(adj) && u in adj && u !in ord
    requires Visits(adj, ord + [u], r)
    requires forall j :: 0 <= j < |adj[u]| ==> adj[u][j] in r
    requires ReachedFromAny(adj, adj[u], r, |ord| + 1)
    ensures Visits(adj, ord, r) && u in r && r[|ord|] == u
    ensures ReachedFrom(adj, u, r, |ord|)
  {
    assert r[..|ord| + 1][..|ord|] == r[..|ord|];
    assert r[|ord|] == (ord + [u])[|ord|];
    forall k | |ord| <= k < |r|
      ensures Reaches(adj, u, r[k])
    {
      if k == |ord| {
        ReachesSelf(adj, u);
      } else {
        var j :| 0 <= j < |adj[u]| && Reaches(adj, adj[u][j], r[k]);
        ReachesThrough(adj, u, adj[u][j], r[k]);
      }
    }
  }

  /** The `for … of adjList[node]` loop: visit each neighbour in turn. */
  function VisitAll(adj: Adj, ns: seq<string>, ord: seq<string>): (r: seq<string>)
    requires Closed(adj) && InKeys(adj, ns) && Distinct(ord) && InKeys(adj, ord)
    ensures Visits(adj, ord, r)
    ensures forall j :: 0 <= j < |ns| ==> ns[j] in r
    ensures ReachedFromAny(adj, ns, r, |ord|)
    decreases |adj.Keys| - |ord|, 1, |ns|
  {
    if |ns| == 0 then ord
    else
      var o1 := Visit(adj, ns[0], ord);
      DistinctBound(o1, adj.Keys);
      var r := VisitAll(adj, ns[1..], o1);
      VisitAllStep(adj, ns, ord, o1, r);
      r
  }

  lemma VisitAllStep(adj: Adj, ns: seq<string>, ord: seq<string>, o1: seq<string>, r: seq<string>)
    requires |ns| > 0 && InKeys(adj, ns)
    requires Visits(adj, ord, o1) && ns[0] in o1 && ReachedFrom(adj, ns[0], o1, |ord|)
    requires Visits(adj, o1, r)
    requires forall j :: 0 <= j < |ns[1..]| ==> ns[1..][j] in r
    requires ReachedFromAny(adj, ns[1..], r, |o1|)
    ensures Visits(adj, ord, r)
    ensures forall j :: 0 <= j < |ns| ==> ns[j] in r
    ensures ReachedFromAny(adj, ns, r, |ord|)
  {
    VisitsTrans(adj, ord, o1, r);
    ReachedFromAnyCons(adj, ns, ord, o1, r);
    assert ns[0] in r;
    assert forall j :: 1 <= j < |ns| ==> ns[j] == ns[1..][j - 1];
  }

  /** Two finished calls in a row make one. */
  lemma VisitsTrans(adj: Adj, ord: seq<string>, o1: seq<string>, r: seq<string>)
    requires Visits(adj, ord, o1) && Visits(adj, o1, r)
    ensures Visits(adj, ord, r)
  {
    assert r[..|o1|][..|ord|] == r[..|ord|];
    assert forall k :: 0 <= k < |o1| ==> o1[k] == r[k];
    forall k, i | |ord| <= k < |r| && 0 <= i < |adj[r[k]]|
      ensures adj[r[k]][i] in r
    {
      if k < |o1| {
        assert adj[o1[k]][i] in o1;
      }
    }
  }

  /** What the first neighbour's call added is reached from it, what the
      rest added from one of the rest. */
  lemma ReachedFromAnyCons(adj: Adj, ns: seq<string>, ord: seq<string>, o1: seq<string>, r: seq<string>)
    requires |ns| > 0 && |ord| <= |o1| && Grows(o1, r)
    requires ReachedFrom(adj, ns[0], o1, |ord|)
    requires ReachedFromAny(adj, ns[1..], r, |o1|)
    ensures ReachedFromAny(adj, ns, r, |ord|)
  {
    forall k | |ord| <= k < |r|
      ensures exists j :: 0 <= j < |ns| && Reaches(adj, ns[j], r[k])
    {
      if k < |o1| {
        assert o1[k] == r[k];
        assert Reaches(adj, ns[0], r[k]);
      } else {
        var j :| 0 <= j < |ns[1..]| && Reaches(adj, ns[1..][j], r[k]);
        assert ns[1..][j] == ns[j + 1];
      }
    }
  }

  /** `dfs(startNode)` on a well-formed adjacency map: the order starts at
      the start node, lists no node twice, and lists exactly the nodes
      reachable from it. */
  function Search(adj: Adj, start: string): (r: seq<string>)
    requires Closed(adj) && start in adj
    ensures |r| > 0 && r[0] == start && Distinct(r)
    ensures forall v :: v in r <==> Reaches(adj, start, v)
  {
    var r := Visit(adj, start, []);
    SearchFinds(adj, start, r);
    r
  }

  lemma SearchFinds(adj: Adj, start: string, r: seq<string>)
    requires Visits(adj, [], r) && start in r && ReachedFrom(adj, start, r, 0)
    ensures forall v :: v in r <==> Reaches(adj, start, v)
  {
    forall v | Reaches(adj, start, v)
      ensures v in r
    {
      ClosedHoldsReachable(adj, r, start, v);
    }
  }

  /** The outcome of clicking "DFS". */
  datatype Outcome = NeedStart | Throws | Order(order: seq<string>)

  /** `handleDFS`: refuse an empty start selection; a start selection that
      no longer names a node (it survives "Clear Graph") makes the loop
      over `adjList[start]` throw. */
  function HandleDfs(nodes: seq<string>, edges: seq<Edge>, directed: bool, start: string): (r: Outcome)
    requires NodesOk(nodes) && EndsOk(nodes, edges)
    ensures start == "" <==> r == NeedStart
    ensures r.Throws? <==> start != "" && start !in nodes
    ensures r.Order? ==> |r.order| > 0 && r.order[0] == start && Distinct(r.order)
    ensures r.Order? ==> BuildAdj(nodes, edges, directed).Some?
    ensures r.Order? ==> (forall v :: v in r.order <==> Reaches(BuildAdj(nodes, edges, directed).value, start, v))
  {
    if start == "" then NeedStart
    else
      BuildAdjOnValidGraph(nodes, edges, directed);
      var adj := BuildAdj(nodes, edges, directed).value;
      if start !in adj then Throws else Order(Search(adj, start))
  }
}
