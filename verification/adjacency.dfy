/** `buildAdjList` (GraphVisualizer.jsx, lines 222-235): the adjacency map
    every traversal reads, and the reference description of its lists. */
module Adjacency {
  import opened Optional
  import opened Graph

  type Adj = map<string, seq<string>>

  /** The neighbours an edge contributes to `u`'s list: its head when `u`
      is its tail, and, when undirected, its tail when `u` is its head. */
  function Contribution(e: Edge, directed: bool, u: string): seq<string> {
    (if e.from == u then [e.to] else []) + (if !directed && e.to == u then [e.from] else [])
  }

  /** The reference description of `u`'s list: the contributions of the
      edges in insertion order. */
  function Neighbours(edges: seq<Edge>, directed: bool, u: string): seq<string> {
    if |edges| == 0 then [] else Contribution(edges[0], directed, u) + Neighbours(edges[1..], directed, u)
  }

  /** One pass of the edge loop: append the head to the tail's list and,
      when undirected, the tail to the head's list. Indexing a missing key
      yields `undefined`, and the `push` on it throws: that is `None` here. */
  function PlaceEdge(adj: Adj, e: Edge, directed: bool): (r: Option<Adj>)
    ensures r.Some? <==> e.from in adj && (!directed ==> e.to in adj)
    ensures r.Some? ==> r.value.Keys == adj.Keys
    ensures r.Some? ==> forall u :: u in adj ==> r.value[u] == adj[u] + Contribution(e, directed, u)
  {
    if e.from !in adj then None
    else
      var a1 := adj[e.from := adj[e.from] + [e.to]];
      if !directed && e.to !in a1 then None
      else Some(if directed then a1 else a1[e.to := a1[e.to] + [e.from]])
  }

  /** All endpoints that the edge loop indexes are keys of `adj`. */
  predicate Indexable(adj: Adj, edges: seq<Edge>, directed: bool) {
    forall i :: 0 <= i < |edges| ==> edges[i].from in adj && (!directed ==> edges[i].to in adj)
  }

  /** The lists `adj` grows into once `edges` are placed. */
  predicate Extends(adj: Adj, edges: seq<Edge>, directed: bool, m: Adj) {
    m.Keys == adj.Keys && forall u :: u in adj ==> m[u] == adj[u] + Neighbours(edges, directed, u)
  }

  /** The edge loop of `buildAdjList`, in insertion order. */
  function AddArcs(adj: Adj, edges: seq<Edge>, directed: bool): (r: Option<Adj>)
    ensures r.Some? <==> Indexable(adj, edges, directed)
    ensures r.Some? ==> Extends(adj, edges, directed, r.value)
  {
    if |edges| == 0 then Some(adj)
    else
      match PlaceEdge(adj, edges[0], directed)
      case None => None
      case Some(a2) =>
        var r := AddArcs(a2, edges[1..], directed);
        AddArcsStep(adj, edges, directed, a2, r);
        r
  }

  lemma AddArcsStep(adj: Adj, edges: seq<Edge>, directed: bool, a2: Adj, r: Option<Adj>)
    requires |edges| > 0 && PlaceEdge(adj, edges[0], directed) == Some(a2)
    requires r.Some? <==> Indexable(a2, edges[1..], directed)
    requires r.Some? ==> Extends(a2, edges[1..], directed, r.value)
    ensures r.Some? <==> Indexable(adj, edges, directed)
    ensures r.Some? ==> Extends(adj, edges, directed, r.value)
  {
    IndexableStep(adj, edges, directed, a2);
    if r.Some? {
      ExtendsStep(adj, edges, directed, a2, r.value);
    }
  }

  lemma IndexableStep(adj: Adj, edges: seq<Edge>, directed: bool, a2: Adj)
    requires |edges| > 0 && PlaceEdge(adj, edges[0], directed) == Some(a2)
    ensures Indexable(a2, edges[1..], directed) <==> Indexable(adj, edges, directed)
  {
    assert a2.Keys == adj.Keys;
    assert forall i :: 1 <= i < |edges| ==> edges[i] == edges[1..][i - 1];
  }

  lemma ExtendsStep(adj: Adj, edges: seq<Edge>, directed: bool, a2: Adj, m: Adj)
    requires |edges| > 0 && PlaceEdge(adj, edges[0], directed) == Some(a2)
    requires Extends(a2, edges[1..], directed, m)
    ensures Extends(adj, edges, directed, m)
  {
    forall u | u in adj
      ensures m[u] == adj[u] + Neighbours(edges, directed, u)
    {
      Regroup(adj[u], Contribution(edges[0], directed, u), Neighbours(edges[1..], directed, u));
    }
  }

  lemma Regroup(a: seq<string>, c: seq<string>, n: seq<string>)
    ensures a + c + n == a + (c + n)
  {
  }

  /** `buildAdjList`: an empty list for every node, then the edges. */
  function BuildAdj(nodes: seq<string>, edges: seq<Edge>, directed: bool): (r: Option<Adj>)
    ensures r.Some? <==>
      forall i :: 0 <= i < |edges| ==> edges[i].from in nodes && (!directed ==> edges[i].to in nodes)
    ensures r.Some? ==> forall u :: u in r.value <==> u in nodes
    ensures r.Some? ==> forall u :: u in nodes ==> r.value[u] == Neighbours(edges, directed, u)
  {
    var empty: Adj := map u | u in nodes :: [];
    var r := AddArcs(empty, edges, directed);
    assert r.Some? ==> forall u :: u in nodes ==> empty[u] == [];
    r
  }

  /** Every neighbour of a node is itself a node. */
  predicate Closed(adj: Adj) {
    forall u, i :: u in adj && 0 <= i < |adj[u]| ==> adj[u][i] in adj
  }

  lemma {:induction false} NeighboursAreEndpoints(edges: seq<Edge>, directed: bool, u: string, i: nat)
    requires i < |Neighbours(edges, directed, u)|
    ensures exists k :: 0 <= k < |edges| && (Neighbours(edges, directed, u)[i] == edges[k].to || Neighbours(edges, directed, u)[i] == edges[k].from)
  {
    var c := Contribution(edges[0], directed, u);
    if i >= |c| {
      NeighboursAreEndpoints(edges[1..], directed, u, i - |c|);
      var k :| 0 <= k < |edges[1..]| && (Neighbours(edges[1..], directed, u)[i - |c|] == edges[1..][k].to || Neighbours(edges[1..], directed, u)[i - |c|] == edges[1..][k].from);
      assert edges[1..][k] == edges[k + 1];
    } else {
      assert c[i] == edges[0].to || c[i] == edges[0].from;
    }
  }

  /** When every endpoint is a node, the adjacency map exists and never
      leads outside the graph. */
  lemma BuildAdjOnValidGraph(nodes: seq<string>, edges: seq<Edge>, directed: bool)
    requires EndsOk(nodes, edges)
    ensures BuildAdj(nodes, edges, directed).Some?
    ensures Closed(BuildAdj(nodes, edges, directed).value)
  {
    var m := BuildAdj(nodes, edges, directed).value;
    forall u, i | u in m && 0 <= i < |m[u]|
      ensures m[u][i] in m
    {
      NeighboursAreEndpoints(edges, directed, u, i);
    }
  }

  /** While the node guards hold, no key and no listed neighbour is the
      empty id, so the `!node` test at the top of the inner `dfs` never
      fires. */
  lemma NoEmptyIds(nodes: seq<string>, edges: seq<Edge>, directed: bool)
    requires NodesOk(nodes) && EndsOk(nodes, edges)
    ensures BuildAdj(nodes, edges, directed).Some?
    ensures var m := BuildAdj(nodes, edges, directed).value;
            "" !in m && forall u, i :: u in m && 0 <= i < |m[u]| ==> m[u][i] != ""
  {
    BuildAdjOnValidGraph(nodes, edges, directed);
  }

  /** The dangling edge the unguarded `handleAddEdge` lets in makes the
      next traversal throw inside `buildAdjList`. */
  lemma DanglingEdgeBreaksBuildAdj()
    ensures BuildAdj(["C"], [Edge("A", "B")], false) == None
  {
    assert !("A" in ["C"]);
  }

  // ---------------------------------------------------------------------
  // Total size of the adjacency lists

  /** The summed list lengths over the nodes `ns`. */
  function Degree(edges: seq<Edge>, directed: bool, ns: seq<string>): nat {
    if |ns| == 0 then 0 else |Neighbours(edges, directed, ns[0])| + Degree(edges, directed, ns[1..])
  }

  /** How many times `x` occurs in `ns`. */
  function Occurrences(ns: seq<string>, x: string): nat {
    if |ns| == 0 then 0 else (if ns[0] == x then 1 else 0) + Occurrences(ns[1..], x)
  }

  lemma {:induction false} OnceInDistinct(ns: seq<string>, x: string)
    requires Distinct(ns) && x in ns
    ensures Occurrences(ns, x) == 1
  {
    if ns[0] == x {
      NotInNone(ns[1..], x);
    } else {
      OnceInDistinct(ns[1..], x);
    }
  }

  lemma {:induction false} NotInNone(ns: seq<string>, x: string)
    requires x !in ns
    ensures Occurrences(ns, x) == 0
  {
    if |ns| > 0 {
      NotInNone(ns[1..], x);
    }
  }

  /** Summing the first edge's contributions over the nodes counts its
      endpoints. */
  lemma {:induction false} FirstEdgeDegree(edges: seq<Edge>, directed: bool, ns: seq<string>)
    requires |edges| > 0
    ensures Degree(edges, directed, ns) ==
      Occurrences(ns, edges[0].from) + (if directed then 0 else Occurrences(ns, edges[0].to)) +
      Degree(edges[1..], directed, ns)
  {
    if |ns| > 0 {
      FirstEdgeDegree(edges, directed, ns[1..]);
    }
  }

  /** The lists hold every edge once when directed and twice when not. */
  lemma {:induction false} DegreeCountsEdges(nodes: seq<string>, edges: seq<Edge>, directed: bool)
    requires Distinct(nodes)
    requires forall i :: 0 <= i < |edges| ==> edges[i].from in nodes && edges[i].to in nodes
    ensures Degree(edges, directed, nodes) == (if directed then 1 else 2) * |edges|
  {
    if |edges| == 0 {
      EmptyDegree(directed, nodes);
    } else {
      FirstEdgeDegree(edges, directed, nodes);
      OnceInDistinct(nodes, edges[0].from);
      OnceInDistinct(nodes, edges[0].to);
      assert forall i :: 0 <= i < |edges[1..]| ==> edges[1..][i] == edges[i + 1];
      DegreeCountsEdges(nodes, edges[1..], directed);
    }
  }

  lemma {:induction false} EmptyDegree(directed: bool, ns: seq<string>)
    ensures Degree([], directed, ns) == 0
  {
    if |ns| > 0 {
      EmptyDegree(directed, ns[1..]);
    }
  }

  /** The adjacency map of a valid graph: its lists together have `|E|`
      entries when directed and `2|E|` when undirected. */
  lemma AdjacencySize(nodes: seq<string>, edges: seq<Edge>, directed: bool, m: Adj)
    requires NodesOk(nodes) && EndsOk(nodes, edges)
    requires BuildAdj(nodes, edges, directed) == Some(m)
    ensures Total(m, nodes) == (if directed then 1 else 2) * |edges|
  {
    TotalIsDegree(m, nodes, edges, directed, nodes);
    DegreeCountsEdges(nodes, edges, directed);
  }

  /** The summed lengths of `m`'s lists for the nodes `ns`. */
  function Total(m: Adj, ns: seq<string>): nat
    requires forall i :: 0 <= i < |ns| ==> ns[i] in m
  {
    if |ns| == 0 then 0 else |m[ns[0]]| + Total(m, ns[1..])
  }

  lemma {:induction false} TotalIsDegree(m: Adj, nodes: seq<string>, edges: seq<Edge>, directed: bool, ns: seq<string>)
    requires forall u :: u in nodes ==> u in m && m[u] == Neighbours(edges, directed, u)
    requires forall i :: 0 <= i < |ns| ==> ns[i] in nodes
    ensures Total(m, ns) == Degree(edges, directed, ns)
  {
    if |ns| > 0 {
      TotalIsDegree(m, nodes, edges, directed, ns[1..]);
    }
  }
}
