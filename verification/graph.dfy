/** Building a graph in the graph view: the node list, the edge list, and
    the guards on adding to each. Node ids are the strings the user typed. */
module Graph {

  /** The node cap of `handleAddNode` (GraphVisualizer.jsx, line 143). */
  const MaxNodes: nat := 20

  /** An edge as the source stores it; whether it is read as an arc or as a
      two-way link depends on the directed flag at the time of use. */
  datatype Edge = Edge(from: string, to: string)

  predicate Distinct(s: seq<string>) {
    forall i, j :: 0 <= i < j < |s| ==> s[i] != s[j]
  }

  lemma DistinctSnoc(s: seq<string>, x: string)
    requires Distinct(s) && x !in s
    ensures Distinct(s + [x])
  {
    var r := s + [x];
    forall i, j | 0 <= i < j < |r|
      ensures r[i] != r[j]
    {
      if j == |s| {
        assert r[i] == s[i];
      }
    }
  }

  /** The message `handleAddNode` leaves behind. */
  datatype NodeReply = NeedValue | Full | Taken(id: string) | AddedNode(id: string)

  /** `handleAddNode` (lines 138-174): refuse an empty value, then a graph
      that already has 20 nodes, then an id already present; otherwise
      append the node. Node positions are not modelled. */
  function AddNode(nodes: seq<string>, v: string): (r: (seq<string>, NodeReply))
    ensures r.1 == AddedNode(v) <==> v != "" && |nodes| < MaxNodes && v !in nodes
    ensures r.1 == AddedNode(v) ==> r.0 == nodes + [v]
    ensures r.1 != AddedNode(v) ==> r.0 == nodes
    ensures v == "" ==> r.1 == NeedValue
    ensures v != "" && |nodes| >= MaxNodes ==> r.1 == Full
    ensures v != "" && |nodes| < MaxNodes && v in nodes ==> r.1 == Taken(v)
  {
    if v == "" then (nodes, NeedValue)
    else if |nodes| >= MaxNodes then (nodes, Full)
    else if v in nodes then (nodes, Taken(v))
    else (nodes + [v], AddedNode(v))
  }

  /** What the node guards keep true: at most 20 nodes, no id twice, and
      no empty id. */
  predicate NodesOk(nodes: seq<string>) {
    |nodes| <= MaxNodes && Distinct(nodes) && "" !in nodes
  }

  lemma AddNodeKeepsNodesOk(nodes: seq<string>, v: string)
    requires NodesOk(nodes)
    ensures NodesOk(AddNode(nodes, v).0)
  {
    var r := AddNode(nodes, v).0;
    if r != nodes {
      DistinctSnoc(nodes, v);
    }
  }

  /** `e` connects `a` to `b`: as an arc, or in either orientation when
      the graph is undirected (the test inside `edges.some`, lines 205-208). */
  predicate Joins(e: Edge, a: string, b: string, directed: bool) {
    (e.from == a && e.to == b) || (!directed && e.from == b && e.to == a)
  }

  predicate EdgeExists(edges: seq<Edge>, a: string, b: string, directed: bool) {
    exists i :: 0 <= i < |edges| && Joins(edges[i], a, b, directed)
  }

  /** The message `handleAddEdge` leaves behind. */
  datatype EdgeReply = NeedEnds | SelfLoop | Duplicate | NoSuchNode | AddedEdge

  /** `handleAddEdge` as written (lines 194-219): it refuses an empty
      endpoint, a self-loop and an existing edge, but never asks whether
      the endpoints are nodes of the graph. */
  function AddEdgeAsWritten(edges: seq<Edge>, a: string, b: string, directed: bool): (r: (seq<Edge>, EdgeReply))
    ensures r.1 == AddedEdge <==> a != "" && b != "" && a != b && !EdgeExists(edges, a, b, directed)
    ensures r.1 == NeedEnds <==> a == "" || b == ""
    ensures r.1 == SelfLoop <==> a != "" && b != "" && a == b
    ensures r.1 == Duplicate <==> a != "" && b != "" && a != b && EdgeExists(edges, a, b, directed)
    ensures r.1 != NoSuchNode
    ensures r.1 == AddedEdge ==> r.0 == edges + [Edge(a, b)]
    ensures r.1 != AddedEdge ==> r.0 == edges
  {
    if a == "" || b == "" then (edges, NeedEnds)
    else if a == b then (edges, SelfLoop)
    else if EdgeExists(edges, a, b, directed) then (edges, Duplicate)
    else (edges + [Edge(a, b)], AddedEdge)
  }

  /** `handleAddEdge` with the membership test the endpoint dropdowns are
      meant to guarantee (lines 500-520): an endpoint that is not a node is
      refused. */
  function AddEdge(nodes: seq<string>, edges: seq<Edge>, a: string, b: string, directed: bool): (r: (seq<Edge>, EdgeReply))
    ensures r.1 == AddedEdge <==>
      a != "" && b != "" && a != b && a in nodes && b in nodes && !EdgeExists(edges, a, b, directed)
    ensures r.1 == NeedEnds <==> a == "" || b == ""
    ensures r.1 == SelfLoop <==> a != "" && b != "" && a == b
    ensures r.1 == NoSuchNode <==> a != "" && b != "" && a != b && (a !in nodes || b !in nodes)
    ensures r.1 == Duplicate <==>
      a != "" && b != "" && a != b && a in nodes && b in nodes && EdgeExists(edges, a, b, directed)
    ensures r.1 == AddedEdge ==> r.0 == edges + [Edge(a, b)]
    ensures r.1 != AddedEdge ==> r.0 == edges
  {
    if a == "" || b == "" then (edges, NeedEnds)
    else if a == b then (edges, SelfLoop)
    else if a !in nodes || b !in nodes then (edges, NoSuchNode)
    else if EdgeExists(edges, a, b, directed) then (edges, Duplicate)
    else (edges + [Edge(a, b)], AddedEdge)
  }

  /** Every endpoint of every edge is a node: all the traversals need. */
  predicate EndsOk(nodes: seq<string>, edges: seq<Edge>) {
    forall i :: 0 <= i < |edges| ==> edges[i].from in nodes && edges[i].to in nodes
  }

  /** What the edge guards keep true: every endpoint is a node, no edge is
      a self-loop, and no edge joins the same pair as an earlier one. */
  predicate EdgesOk(nodes: seq<string>, edges: seq<Edge>, directed: bool) {
    EndsOk(nodes, edges) &&
    (forall i :: 0 <= i < |edges| ==> edges[i].from != edges[i].to) &&
    (forall i, j :: 0 <= i < j < |edges| ==> !Joins(edges[j], edges[i].from, edges[i].to, directed))
  }

  lemma AddEdgeKeepsEdgesOk(nodes: seq<string>, edges: seq<Edge>, a: string, b: string, directed: bool)
    requires EdgesOk(nodes, edges, directed)
    ensures EdgesOk(nodes, AddEdge(nodes, edges, a, b, directed).0, directed)
  {
    var r := AddEdge(nodes, edges, a, b, directed).0;
    if r != edges {
      assert r == edges + [Edge(a, b)] && !EdgeExists(edges, a, b, directed);
      forall i, j | 0 <= i < j < |r|
        ensures !Joins(r[j], r[i].from, r[i].to, directed)
      {
        if j == |edges| {
          assert !Joins(edges[i], a, b, directed);
        }
      }
    }
  }

  /** Adding a node never invalidates the edges. */
  lemma AddNodeKeepsEdgesOk(nodes: seq<string>, edges: seq<Edge>, v: string, directed: bool)
    requires EdgesOk(nodes, edges, directed)
    ensures EdgesOk(AddNode(nodes, v).0, edges, directed)
  {
  }

  /** `toggleDirected` (lines 404-407) flips the flag and re-checks
      nothing: going from undirected to directed keeps the edge guards
      true, ... */
  lemma ToUndirectedToDirected(nodes: seq<string>, edges: seq<Edge>)
    requires EdgesOk(nodes, edges, false)
    ensures EdgesOk(nodes, edges, true)
  {
  }

  /** ... but the other way an arc and its reverse, both admitted while
      directed, become the same link twice. */
  lemma ToDirectedToUndirected()
    ensures var e1 := AddEdge(["A", "B"], [], "A", "B", true).0;
            var e2 := AddEdge(["A", "B"], e1, "B", "A", true).0;
            EdgesOk(["A", "B"], e2, true) && e2 == [Edge("A", "B"), Edge("B", "A")] &&
            !EdgesOk(["A", "B"], e2, false)
  {
    var e1 := AddEdge(["A", "B"], [], "A", "B", true).0;
    assert e1 == [Edge("A", "B")];
    assert !Joins(e1[0], "B", "A", true);
    var e2 := AddEdge(["A", "B"], e1, "B", "A", true).0;
    assert e2 == [Edge("A", "B"), Edge("B", "A")];
    assert Joins(e2[1], e2[0].from, e2[0].to, false);
  }

  /** The editing state of the view: the graph and the three endpoint
      dropdowns, whose values outlive the nodes they name. */
  datatype Editor = Editor(nodes: seq<string>, edges: seq<Edge>, fromNode: string, toNode: string,
                           startNode: string, directed: bool)

  /** `handleClearGraph` (lines 396-401): nodes and edges go, the dropdown
      selections stay. */
  function Clear(ed: Editor): (r: Editor)
    ensures r.nodes == [] && r.edges == []
    ensures r.fromNode == ed.fromNode && r.toNode == ed.toNode && r.startNode == ed.startNode
    ensures r.directed == ed.directed
  {
    ed.(nodes := [], edges := [])
  }

  /** Clicking "Add Edge" with the current selections, as written: on
      success both selections are cleared (lines 217-218). */
  function ClickAddEdgeAsWritten(ed: Editor): (r: Editor)
    ensures AddEdgeAsWritten(ed.edges, ed.fromNode, ed.toNode, ed.directed).1 == AddedEdge <==>
      r.edges == ed.edges + [Edge(ed.fromNode, ed.toNode)]
    ensures AddEdgeAsWritten(ed.edges, ed.fromNode, ed.toNode, ed.directed).1 == AddedEdge ==>
      r.fromNode == "" && r.toNode == ""
    ensures AddEdgeAsWritten(ed.edges, ed.fromNode, ed.toNode, ed.directed).1 != AddedEdge ==> r == ed
    ensures r.nodes == ed.nodes && r.startNode == ed.startNode && r.directed == ed.directed
  {
    var (es, reply) := AddEdgeAsWritten(ed.edges, ed.fromNode, ed.toNode, ed.directed);
    if reply == AddedEdge then ed.(edges := es, fromNode := "", toNode := "") else ed.(edges := es)
  }

  /** Clicking "Add Edge" with the corrected guard. */
  function ClickAddEdge(ed: Editor): (r: Editor)
    ensures AddEdge(ed.nodes, ed.edges, ed.fromNode, ed.toNode, ed.directed).1 == AddedEdge <==>
      r.edges == ed.edges + [Edge(ed.fromNode, ed.toNode)]
    ensures AddEdge(ed.nodes, ed.edges, ed.fromNode, ed.toNode, ed.directed).1 == AddedEdge ==>
      r.fromNode == "" && r.toNode == ""
    ensures AddEdge(ed.nodes, ed.edges, ed.fromNode, ed.toNode, ed.directed).1 != AddedEdge ==> r == ed
    ensures r.nodes == ed.nodes && r.startNode == ed.startNode && r.directed == ed.directed
  {
    var (es, reply) := AddEdge(ed.nodes, ed.edges, ed.fromNode, ed.toNode, ed.directed);
    if reply == AddedEdge then ed.(edges := es, fromNode := "", toNode := "") else ed.(edges := es)
  }

  /** Select A and B, clear the graph, add a node C and click "Add Edge":
      the guard as written stores an edge between two nodes that no longer
      exist. */
  lemma StaleSelectionAddsDanglingEdge(ed: Editor)
    requires ed == Editor(["A", "B"], [], "A", "B", "", false)
    ensures var c := Clear(ed);
            var after := ClickAddEdgeAsWritten(c.(nodes := AddNode(c.nodes, "C").0));
            after.nodes == ["C"] && after.edges == [Edge("A", "B")] &&
            !EdgesOk(after.nodes, after.edges, false)
  {
    var c := Clear(ed);
    assert AddNode([], "C").0 == ["C"];
    var e := c.(nodes := ["C"]);
    assert !EdgeExists([], "A", "B", false);
    assert AddEdgeAsWritten([], "A", "B", false).1 == AddedEdge;
    var after := ClickAddEdgeAsWritten(e);
    assert after.edges[0].from !in after.nodes;
  }

  /** The corrected guard keeps both invariants through every editing
      step, stale selections included. */
  lemma ClickAddEdgeKeepsEdgesOk(ed: Editor)
    requires NodesOk(ed.nodes) && EdgesOk(ed.nodes, ed.edges, ed.directed)
    ensures var r := ClickAddEdge(ed); NodesOk(r.nodes) && EdgesOk(r.nodes, r.edges, r.directed)
  {
    AddEdgeKeepsEdgesOk(ed.nodes, ed.edges, ed.fromNode, ed.toNode, ed.directed);
  }
}
