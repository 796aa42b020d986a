/** A worked example: nodes A, B, C, D with the undirected edges A-B, A-C
    and B-D. Depth-first search from A visits A, B, D, C; breadth-first
    search from A visits A, B, C, D at levels 0, 1, 1, 2 and ranks the
    discovery edges A-B, A-C, B-D as 1, 2, 3. */
module GraphExample {
  import opened Optional
  import opened Graph
  import opened Adjacency
  import opened Dfs
  import opened Bfs
  import BfsOrder

  /** The adjacency lists of the last two edges. */
  lemma NeighboursOfTail(e2: seq<Edge>)
    requires e2 == [Edge("A", "C"), Edge("B", "D")]
    ensures Neighbours(e2, false, "A") == ["C"] && Neighbours(e2, false, "B") == ["D"]
    ensures Neighbours(e2, false, "C") == ["A"] && Neighbours(e2, false, "D") == ["B"]
  {
    var e3 := [Edge("B", "D")];
    assert e2[1..] == e3 && e3[1..] == [];
    assert Neighbours(e3, false, "A") == [] && Neighbours(e3, false, "B") == ["D"];
    assert Neighbours(e3, false, "C") == [] && Neighbours(e3, false, "D") == ["B"];
  }

  lemma NeighboursOfExample(es: seq<Edge>)
    requires es == [Edge("A", "B"), Edge("A", "C"), Edge("B", "D")]
    ensures Neighbours(es, false, "A") == ["B", "C"]
    ensures Neighbours(es, false, "B") == ["A", "D"]
    ensures Neighbours(es, false, "C") == ["A"]
    ensures Neighbours(es, false, "D") == ["B"]
  {
    var e2 := [Edge("A", "C"), Edge("B", "D")];
    assert es[1..] == e2;
    NeighboursOfTail(e2);
  }

  lemma ExampleAdj(ns: seq<string>, es: seq<Edge>, m: Adj)
    requires ns == ["A", "B", "C", "D"] && es == [Edge("A", "B"), Edge("A", "C"), Edge("B", "D")]
    requires BuildAdj(ns, es, false) == Some(m)
    ensures m == map["A" := ["B", "C"], "B" := ["A", "D"], "C" := ["A"], "D" := ["B"]]
  {
    NeighboursOfExample(es);
    assert forall u :: u in m <==> u in ns;
    ExampleKeys(m, ns);
    assert m["A"] == ["B", "C"] && m["B"] == ["A", "D"] && m["C"] == ["A"] && m["D"] == ["B"];
    ExampleMap(m);
  }

  lemma ExampleKeys(m: Adj, ns: seq<string>)
    requires ns == ["A", "B", "C", "D"] && forall u :: u in m <==> u in ns
    ensures m.Keys == {"A", "B", "C", "D"}
  {
  }

  lemma ExampleMap(m: Adj)
    requires m.Keys == {"A", "B", "C", "D"}
    requires m["A"] == ["B", "C"] && m["B"] == ["A", "D"] && m["C"] == ["A"] && m["D"] == ["B"]
    ensures m == map["A" := ["B", "C"], "B" := ["A", "D"], "C" := ["A"], "D" := ["B"]]
  {
  }

  /** The adjacency lists of the example. */
  predicate IsExample(m: Adj) {
    m == map["A" := ["B", "C"], "B" := ["A", "D"], "C" := ["A"], "D" := ["B"]]
  }

  lemma ExampleClosed(m: Adj)
    requires IsExample(m)
    ensures Closed(m)
  {
  }

  lemma VisitedAgain(m: Adj, u: string, o: seq<string>)
    requires IsExample(m) && Distinct(o) && InKeys(m, o) && u in o
    ensures Closed(m) && u in m && Visit(m, u, o) == o
  {
    ExampleClosed(m);
  }

  lemma StepD(m: Adj, o: seq<string>)
    requires IsExample(m) && o == ["A", "B"]
    ensures Closed(m) && Visit(m, "D", o) == ["A", "B", "D"]
  {
    ExampleClosed(m);
    var o2 := ["A", "B", "D"];
    assert o + ["D"] == o2;
    VisitedAgain(m, "B", o2);
    assert m["D"] == ["B"];
    assert VisitAll(m, m["D"], o2) == VisitAll(m, [], o2);
  }

  lemma StepB(m: Adj, o: seq<string>)
    requires IsExample(m) && o == ["A"]
    ensures Closed(m) && Visit(m, "B", o) == ["A", "B", "D"]
  {
    ExampleClosed(m);
    var o2 := ["A", "B"];
    assert o + ["B"] == o2;
    VisitedAgain(m, "A", o2);
    StepD(m, o2);
    var o3 := ["A", "B", "D"];
    assert m["B"] == ["A", "D"];
    assert VisitAll(m, ["D"], o2) == VisitAll(m, [], o3);
    assert VisitAll(m, m["B"], o2) == VisitAll(m, ["D"], o2);
  }

  lemma StepC(m: Adj, o: seq<string>)
    requires IsExample(m) && o == ["A", "B", "D"]
    ensures Closed(m) && Visit(m, "C", o) == ["A", "B", "D", "C"]
  {
    ExampleClosed(m);
    var o2 := ["A", "B", "D", "C"];
    assert o + ["C"] == o2;
    VisitedAgain(m, "A", o2);
    assert m["C"] == ["A"];
    assert VisitAll(m, m["C"], o2) == VisitAll(m, [], o2);
  }

  lemma ExampleOrder(m: Adj)
    requires IsExample(m)
    ensures Closed(m) && Search(m, "A") == ["A", "B", "D", "C"]
  {
    ExampleClosed(m);
    var o1 := ["A"];
    assert [] + ["A"] == o1;
    StepB(m, o1);
    var o3 := ["A", "B", "D"];
    StepC(m, o3);
    assert m["A"] == ["B", "C"];
    assert VisitAll(m, ["C"], o3) == VisitAll(m, [], o3 + ["C"]);
    assert VisitAll(m, m["A"], o1) == VisitAll(m, ["C"], o3);
  }

  lemma ExampleEdgesOk(ns: seq<string>, es: seq<Edge>)
    requires ns == ["A", "B", "C", "D"] && es == [Edge("A", "B"), Edge("A", "C"), Edge("B", "D")]
    ensures NodesOk(ns) && EdgesOk(ns, es, false)
  {
  }

  /** Clicking "DFS" with A selected yields the order A, B, D, C. */
  lemma DfsExample(ns: seq<string>, es: seq<Edge>)
    requires ns == ["A", "B", "C", "D"] && es == [Edge("A", "B"), Edge("A", "C"), Edge("B", "D")]
    ensures EdgesOk(ns, es, false) && HandleDfs(ns, es, false, "A") == Order(["A", "B", "D", "C"])
  {
    ExampleEdgesOk(ns, es);
    BuildAdjOnValidGraph(ns, es, false);
    var m := BuildAdj(ns, es, false).value;
    ExampleAdj(ns, es, m);
    ExampleOrder(m);
  }

  /** An arc and its reverse, both admitted while directed, then viewed
      undirected: the same link is listed twice, yet every endpoint is a
      node, so by `SearchesRun` both searches run. */
  lemma ReversedPairLists(ns: seq<string>, es: seq<Edge>)
    requires ns == ["A", "B"] && es == [Edge("A", "B"), Edge("B", "A")]
    ensures EndsOk(ns, es) && !EdgesOk(ns, es, false)
    ensures BuildAdj(ns, es, false) == Some(map["A" := ["B", "B"], "B" := ["A", "A"]])
  {
    assert Joins(es[1], es[0].from, es[0].to, false);
    BuildAdjOnValidGraph(ns, es, false);
    var m := BuildAdj(ns, es, false).value;
    ReversedPairNeighbours(es);
    assert m.Keys == {"A", "B"};
    assert m == map["A" := ["B", "B"], "B" := ["A", "A"]];
  }

  /** When the node guards hold and every endpoint is a node, a start that
      names a node makes both searches run to a result. */
  lemma SearchesRun(ns: seq<string>, es: seq<Edge>, directed: bool, start: string)
    requires NodesOk(ns) && EndsOk(ns, es) && start != "" && start in ns
    ensures HandleDfs(ns, es, directed, start).Order?
    ensures HandleBfs(ns, es, directed, start).Found?
  {
  }

  lemma ReversedPairNeighbours(es: seq<Edge>)
    requires es == [Edge("A", "B"), Edge("B", "A")]
    ensures Neighbours(es, false, "A") == ["B", "B"] && Neighbours(es, false, "B") == ["A", "A"]
  {
    var e2 := [Edge("B", "A")];
    assert es[1..] == e2 && e2[1..] == [];
    assert Neighbours(e2, false, "A") == ["B"] && Neighbours(e2, false, "B") == ["A"];
  }

  // ---------------------------------------------------------------------
  // Breadth-first search of the example

  lemma ScanFresh(adj: Adj, d: bool, ns: seq<string>, st: Sweep)
    requires Base(adj, st) && st.head < |st.seen| && InKeys(adj, ns) && |ns| > 0 && ns[0] !in st.seen
    ensures Base(adj, Enqueue(d, st, ns[0])) && InKeys(adj, ns[1..])
    ensures Scan(adj, d, ns, st) == Scan(adj, d, ns[1..], Enqueue(d, st, ns[0]))
  {
    EnqueueBase(adj, d, ns, st, Enqueue(d, st, ns[0]));
  }

  lemma ScanSeen(adj: Adj, d: bool, ns: seq<string>, st: Sweep)
    requires Base(adj, st) && st.head < |st.seen| && InKeys(adj, ns) && |ns| > 0 && ns[0] in st.seen
    ensures InKeys(adj, ns[1..]) && Scan(adj, d, ns, st) == Scan(adj, d, ns[1..], st)
  {
  }

  lemma QueueB(st: Sweep, e: Sweep)
    requires st == Initial("A") && e == Enqueue(false, st, "B")
    ensures e == Sweep(["A", "B"], 0, map["A" := 0, "B" := 1], map[Link({"A", "B"}) := 1])
  {
  }

  lemma QueueC(st: Sweep, e: Sweep)
    requires st == Sweep(["A", "B"], 0, map["A" := 0, "B" := 1], map[Link({"A", "B"}) := 1])
    requires e == Enqueue(false, st, "C")
    ensures e == Sweep(["A", "B", "C"], 0, map["A" := 0, "B" := 1, "C" := 1],
                       map[Link({"A", "B"}) := 1, Link({"A", "C"}) := 2])
  {
  }

  lemma QueueD(st: Sweep, e: Sweep)
    requires st == Sweep(["A", "B", "C"], 1, map["A" := 0, "B" := 1, "C" := 1],
                         map[Link({"A", "B"}) := 1, Link({"A", "C"}) := 2])
    requires e == Enqueue(false, st, "D")
    ensures e == Sweep(["A", "B", "C", "D"], 1, map["A" := 0, "B" := 1, "C" := 1, "D" := 2],
                       map[Link({"A", "B"}) := 1, Link({"A", "C"}) := 2, Link({"B", "D"}) := 3])
  {
  }

  /** Dequeuing A queues B then C, ranking A-B as 1 and A-C as 2. */
  lemma BfsFromA(m: Adj, st: Sweep, r: Sweep)
    requires IsExample(m) && st == Initial("A") && Base(m, st)
    requires r == Scan(m, false, m["A"], st)
    ensures r == Sweep(["A", "B", "C"], 0, map["A" := 0, "B" := 1, "C" := 1],
                       map[Link({"A", "B"}) := 1, Link({"A", "C"}) := 2])
  {
    var ns := m["A"];
    assert ns == ["B", "C"] && ns[1..] == ["C"] && ns[1..][1..] == [];
    ScanFresh(m, false, ns, st);
    var e1 := Enqueue(false, st, "B");
    QueueB(st, e1);
    ScanFresh(m, false, ns[1..], e1);
    QueueC(e1, Enqueue(false, e1, "C"));
  }

  /** Dequeuing B first meets A, which is already queued. */
  lemma SkipA(m: Adj, st: Sweep, ns: seq<string>)
    requires IsExample(m) && st.seen == ["A", "B", "C"] && st.head == 1 && Base(m, st) && ns == m["B"]
    ensures InKeys(m, ["D"]) && Scan(m, false, ns, st) == Scan(m, false, ["D"], st)
  {
    assert ns == ["A", "D"] && ns[1..] == ["D"];
    ScanSeen(m, false, ns, st);
  }

  /** Dequeuing B then queues D, ranking B-D as 3. */
  lemma QueueOnlyD(m: Adj, st: Sweep, r: Sweep)
    requires IsExample(m)
    requires st == Sweep(["A", "B", "C"], 1, map["A" := 0, "B" := 1, "C" := 1],
                         map[Link({"A", "B"}) := 1, Link({"A", "C"}) := 2])
    requires Base(m, st) && r == Scan(m, false, ["D"], st)
    ensures r == Sweep(["A", "B", "C", "D"], 1, map["A" := 0, "B" := 1, "C" := 1, "D" := 2],
                       map[Link({"A", "B"}) := 1, Link({"A", "C"}) := 2, Link({"B", "D"}) := 3])
  {
    var ns := ["D"];
    assert ns[1..] == [];
    ScanFresh(m, false, ns, st);
    QueueD(st, Enqueue(false, st, "D"));
  }

  /** Dequeuing B finds A already seen and queues D, ranking B-D as 3. */
  lemma BfsFromB(m: Adj, st: Sweep, r: Sweep)
    requires IsExample(m)
    requires st == Sweep(["A", "B", "C"], 1, map["A" := 0, "B" := 1, "C" := 1],
                         map[Link({"A", "B"}) := 1, Link({"A", "C"}) := 2])
    requires Base(m, st) && r == Scan(m, false, m["B"], st)
    ensures r == Sweep(["A", "B", "C", "D"], 1, map["A" := 0, "B" := 1, "C" := 1, "D" := 2],
                       map[Link({"A", "B"}) := 1, Link({"A", "C"}) := 2, Link({"B", "D"}) := 3])
  {
    SkipA(m, st, m["B"]);
    QueueOnlyD(m, st, r);
  }

  /** Dequeuing C and then D queues nothing: their neighbours are seen. */
  lemma BfsLeaves(m: Adj, st: Sweep)
    requires IsExample(m) && st.seen == ["A", "B", "C", "D"] && 2 <= st.head <= 3 && Base(m, st)
    ensures Scan(m, false, m[st.seen[st.head]], st) == st
  {
    var ns := m[st.seen[st.head]];
    assert |ns| == 1 && ns[0] in st.seen && ns[1..] == [];
    ScanSeen(m, false, ns, st);
  }

  lemma RunTurn(adj: Adj, d: bool, st: Sweep, next: Sweep)
    requires Base(adj, st) && Closed(adj) && st.head < |st.seen|
    requires next == Scan(adj, d, adj[st.seen[st.head]], st).(head := st.head + 1)
    ensures Base(adj, next) && Run(adj, d, st) == Run(adj, d, next)
  {
    var s1 := Scan(adj, d, adj[st.seen[st.head]], st);
    RunNext(adj, d, st, s1, next, Run(adj, d, st));
  }

  /** After B is dequeued every node is queued; C and D add nothing. */
  lemma BfsTail(m: Adj, t2: Sweep, r: Sweep)
    requires IsExample(m) && Closed(m)
    requires t2 == Sweep(["A", "B", "C", "D"], 2, map["A" := 0, "B" := 1, "C" := 1, "D" := 2],
                         map[Link({"A", "B"}) := 1, Link({"A", "C"}) := 2, Link({"B", "D"}) := 3])
    requires Base(m, t2) && r == Run(m, false, t2)
    ensures r == t2.(head := 4)
  {
    BfsLeaves(m, t2);
    var t3 := t2.(head := 3);
    RunTurn(m, false, t2, t3);
    BfsLeaves(m, t3);
    RunTurn(m, false, t3, t2.(head := 4));
  }

  /** The sweep once A has been dequeued. */
  function AfterA(): Sweep {
    Sweep(["A", "B", "C"], 1, map["A" := 0, "B" := 1, "C" := 1],
          map[Link({"A", "B"}) := 1, Link({"A", "C"}) := 2])
  }

  /** The sweep once B has been dequeued. */
  function AfterB(): Sweep {
    Sweep(["A", "B", "C", "D"], 2, map["A" := 0, "B" := 1, "C" := 1, "D" := 2],
          map[Link({"A", "B"}) := 1, Link({"A", "C"}) := 2, Link({"B", "D"}) := 3])
  }

  /** Dequeuing A from the initial sweep leads to `AfterA`. */
  lemma FirstTurn(m: Adj, s0: Sweep, t1: Sweep)
    requires IsExample(m) && s0 == Initial("A") && t1 == AfterA()
    ensures Base(m, s0) && s0.head < |s0.seen|
    ensures t1 == Scan(m, false, m[s0.seen[s0.head]], s0).(head := s0.head + 1)
  {
    assert Base(m, s0);
    var s1 := Scan(m, false, m["A"], s0);
    BfsFromA(m, s0, s1);
  }

  /** Dequeuing B from `AfterA` leads to `AfterB`. */
  lemma SecondTurn(m: Adj, t1: Sweep, t2: Sweep)
    requires IsExample(m) && t1 == AfterA() && t2 == AfterB() && Base(m, t1)
    ensures t1.head < |t1.seen|
    ensures t2 == Scan(m, false, m[t1.seen[t1.head]], t1).(head := t1.head + 1)
  {
    var s2 := Scan(m, false, m["B"], t1);
    BfsFromB(m, t1, s2);
  }

  /** The first turn of the search dequeues A. */
  lemma RunFromA(m: Adj, s0: Sweep, t1: Sweep, r: Sweep)
    requires IsExample(m) && Closed(m) && s0 == Initial("A") && t1 == AfterA() && r == Run(m, false, s0)
    ensures Base(m, t1) && r == Run(m, false, t1)
  {
    FirstTurn(m, s0, t1);
    RunTurn(m, false, s0, t1);
  }

  /** The second turn dequeues B. */
  lemma RunFromB(m: Adj, t1: Sweep, t2: Sweep, r: Sweep)
    requires IsExample(m) && Closed(m) && t1 == AfterA() && t2 == AfterB() && Base(m, t1) && r == Run(m, false, t1)
    ensures Base(m, t2) && r == Run(m, false, t2)
  {
    SecondTurn(m, t1, t2);
    RunTurn(m, false, t1, t2);
  }

  /** The search from A ends with every node queued, at levels 0, 1, 1, 2,
      with the discovery edges A-B, A-C, B-D ranked 1, 2, 3. */
  lemma BfsRun(m: Adj, r: Sweep)
    requires IsExample(m) && r == Run(m, false, Initial("A"))
    ensures r == Sweep(["A", "B", "C", "D"], 4, map["A" := 0, "B" := 1, "C" := 1, "D" := 2],
                       map[Link({"A", "B"}) := 1, Link({"A", "C"}) := 2, Link({"B", "D"}) := 3])
  {
    ExampleClosed(m);
    RunFromA(m, Initial("A"), AfterA(), r);
    RunFromB(m, AfterA(), AfterB(), r);
    BfsTail(m, AfterB(), r);
  }

  /** Breadth-first search of the example from A. */
  lemma BfsTraversal(m: Adj)
    requires IsExample(m)
    ensures Closed(m) && "A" in m
    ensures BreadthFirst(m, false, "A") ==
      Traversal(["A", "B", "C", "D"], map["A" := 0, "B" := 1, "C" := 1, "D" := 2],
                map[Link({"A", "B"}) := 1, Link({"A", "C"}) := 2, Link({"B", "D"}) := 3])
  {
    ExampleClosed(m);
    BfsRun(m, Run(m, false, Initial("A")));
  }

  /** Of the two orders that visit A's neighbours level by level, only
      the one that takes them in list order, B before C, is the
      breadth-first order. */
  lemma OnlyBfsOrder(m: Adj)
    requires IsExample(m)
    ensures BfsOrder.IsBfsOrder(m, "A", ["A", "B", "C", "D"])
    ensures !BfsOrder.IsBfsOrder(m, "A", ["A", "C", "B", "D"])
  {
    BfsTraversal(m);
    BfsOrder.BreadthFirstIsTheBfsOrder(m, false, "A", ["A", "B", "C", "D"]);
    BfsOrder.BreadthFirstIsTheBfsOrder(m, false, "A", ["A", "C", "B", "D"]);
  }

  /** Clicking "BFS" with A selected. */
  lemma BfsExample(ns: seq<string>, es: seq<Edge>)
    requires ns == ["A", "B", "C", "D"] && es == [Edge("A", "B"), Edge("A", "C"), Edge("B", "D")]
    ensures EdgesOk(ns, es, false)
    ensures HandleBfs(ns, es, false, "A") ==
      Found(Traversal(["A", "B", "C", "D"], map["A" := 0, "B" := 1, "C" := 1, "D" := 2],
                      map[Link({"A", "B"}) := 1, Link({"A", "C"}) := 2, Link({"B", "D"}) := 3]))
  {
    ExampleEdgesOk(ns, es);
    BuildAdjOnValidGraph(ns, es, false);
    var m := BuildAdj(ns, es, false).value;
    ExampleAdj(ns, es, m);
    BfsTraversal(m);
  }
}
