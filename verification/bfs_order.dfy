/** The order in which `handleBFS` (GraphVisualizer.jsx, lines 326-358)
    visits the nodes: each node is the first unvisited neighbour, in
    adjacency-list order, of the earliest visited node that still has one.
    Stated here without reference to the queue, then shown to pin down
    exactly the order `Bfs.BreadthFirst` returns, and which edge ranks and
    levels go with it. */
module BfsOrder {
  import opened Optional
  import opened Graph
  import opened Adjacency
  import opened Dfs
  import opened DfsOrder
  import opened Bfs

  /** After `r[..k]`, the search takes `r[k]` from `r[j]`: `r[j]` is the
      earliest node with an unvisited neighbour, and `r[k]` is the first
      such neighbour. */
  ghost predicate NextOf(adj: Adj, r: seq<string>, k: int, j: int) {
    0 <= j < k < |r| && r[j] in adj && FirstNew(adj[r[j]], r[..k]) == Some(r[k]) &&
    forall i :: 0 <= i < j ==> r[i] in adj && FirstNew(adj[r[i]], r[..k]) == None
  }

  /** `r[k]` is where a breadth-first search goes after `r[..k]`. */
  ghost predicate BfsStep(adj: Adj, r: seq<string>, k: int) {
    exists j :: NextOf(adj, r, k, j)
  }

  /** Every node of `r` after the first is a breadth-first step. */
  ghost predicate Queued(adj: Adj, r: seq<string>) {
    forall k :: 1 <= k < |r| ==> BfsStep(adj, r, k)
  }

  /** A breadth-first order from `start`: it begins there, every later
      node is a breadth-first step, and it ends only when no node in it
      has an unvisited neighbour. */
  ghost predicate IsBfsOrder(adj: Adj, start: string, r: seq<string>) {
    |r| > 0 && r[0] == start && Queued(adj, r) && Ended(adj, r)
  }

  // ---------------------------------------------------------------------
  // The queue follows the reference order

  /** `seen[k]` is a breadth-first step taken from `seen[j]`, and the
      search recorded `seen[j]` as its discoverer. */
  ghost predicate Fed(adj: Adj, directed: bool, st: Sweep, k: int)
    requires InKeys(adj, st.seen)
  {
    exists j :: NextOf(adj, st.seen, k, j) && Discovery(adj, directed, st, k, j)
  }

  /** Every queued node after the first is `Fed`. */
  ghost predicate Feeds(adj: Adj, directed: bool, st: Sweep)
    requires InKeys(adj, st.seen)
  {
    forall k :: 1 <= k < |st.seen| ==> Fed(adj, directed, st, k)
  }

  /** Queueing the `m`-th neighbour of the head, when the ones before it
      are all queued, is the breadth-first step from the head. */
  lemma EnqueueStep(adj: Adj, directed: bool, st: Sweep, m: nat, e: Sweep)
    requires Base(adj, st) && Closed(adj) && st.head < |st.seen| && Processed(adj, st)
    requires m < |adj[st.seen[st.head]]| && adj[st.seen[st.head]][m] !in st.seen
    requires forall i :: 0 <= i < m ==> adj[st.seen[st.head]][i] in st.seen
    requires e == Enqueue(directed, st, adj[st.seen[st.head]][m])
    ensures InKeys(adj, e.seen) && NextOf(adj, e.seen, |st.seen|, st.head)
    ensures Discovery(adj, directed, e, |st.seen|, st.head)
  {
    var ns := adj[st.seen[st.head]];
    var n := |st.seen|;
    assert e.seen[..n] == st.seen;
    FirstNewSkip(ns, st.seen, m);
    assert ns[m..][0] == ns[m];
    forall i | 0 <= i < st.head
      ensures FirstNew(adj[st.seen[i]], st.seen) == None
    {
    }
  }

  /** A step looks only at the prefix before it, so it survives any
      extension of the sequence. */
  lemma NextOfGrows(adj: Adj, r: seq<string>, r2: seq<string>, k: int, j: int)
    requires NextOf(adj, r, k, j) && Grows(r, r2)
    ensures NextOf(adj, r2, k, j)
  {
    assert r2[..k] == r[..k];
    assert forall i :: 0 <= i <= k ==> r2[i] == r[i];
  }

  /** Queueing keeps the earlier steps and their discovery edges. */
  lemma EnqueueKeepsFed(adj: Adj, directed: bool, st: Sweep, nb: string, e: Sweep, k: int)
    requires Base(adj, st) && st.head < |st.seen| && nb !in st.seen && RanksOk(st)
    requires e == Enqueue(directed, st, nb) && InKeys(adj, e.seen)
    requires 1 <= k < |st.seen| && Fed(adj, directed, st, k)
    ensures Fed(adj, directed, e, k)
  {
    EnqueueRanks(adj, directed, st, nb, e);
    var j :| NextOf(adj, st.seen, k, j) && Discovery(adj, directed, st, k, j);
    assert e.seen[..|st.seen|] == st.seen;
    NextOfGrows(adj, st.seen, e.seen, k, j);
    assert e.seen[k] == st.seen[k] && e.seen[j] == st.seen[j];
    assert Discovery(adj, directed, e, k, j);
  }

  lemma EnqueueFeeds(adj: Adj, directed: bool, st: Sweep, m: nat, e: Sweep)
    requires Base(adj, st) && Closed(adj) && st.head < |st.seen| && Processed(adj, st)
    requires RanksOk(st) && Feeds(adj, directed, st)
    requires m < |adj[st.seen[st.head]]| && adj[st.seen[st.head]][m] !in st.seen
    requires forall i :: 0 <= i < m ==> adj[st.seen[st.head]][i] in st.seen
    requires e == Enqueue(directed, st, adj[st.seen[st.head]][m])
    ensures InKeys(adj, e.seen) && Feeds(adj, directed, e)
  {
    EnqueueStep(adj, directed, st, m, e);
    forall k | 1 <= k < |e.seen|
      ensures Fed(adj, directed, e, k)
    {
      if k < |st.seen| {
        EnqueueKeepsFed(adj, directed, st, adj[st.seen[st.head]][m], e, k);
      }
    }
  }

  /** The neighbour loop from offset `m` on keeps every queued node `Fed`. */
  lemma {:induction false} ScanFeeds(adj: Adj, directed: bool, m: nat, st: Sweep, r: Sweep)
    requires Base(adj, st) && Closed(adj) && st.head < |st.seen| && Processed(adj, st)
    requires RanksOk(st) && Feeds(adj, directed, st)
    requires m <= |adj[st.seen[st.head]]|
    requires forall i :: 0 <= i < m ==> adj[st.seen[st.head]][i] in st.seen
    requires InKeys(adj, adj[st.seen[st.head]][m..])
    requires r == Scan(adj, directed, adj[st.seen[st.head]][m..], st)
    ensures Feeds(adj, directed, r)
    decreases |adj[st.seen[st.head]]| - m
  {
    var ns := adj[st.seen[st.head]][m..];
    if |ns| > 0 {
      var next := if ns[0] in st.seen then st else Enqueue(directed, st, ns[0]);
      EnqueueBase(adj, directed, ns, st, next);
      if ns[0] !in st.seen {
        EnqueueRanks(adj, directed, st, ns[0], next);
        EnqueueFeeds(adj, directed, st, m, next);
      }
      ProcessedGrows(adj, st, next);
      assert ns[1..] == adj[st.seen[st.head]][m + 1..];
      assert next.seen[next.head] == st.seen[st.head];
      assert forall i :: 0 <= i < |st.seen| ==> next.seen[i] == st.seen[i];
      ScanFeeds(adj, directed, m + 1, next, r);
    }
  }

  /** Moving the head does not change what was queued. */
  lemma FeedsNext(adj: Adj, directed: bool, s1: Sweep, s2: Sweep)
    requires InKeys(adj, s1.seen) && Feeds(adj, directed, s1)
    requires s2 == s1.(head := s1.head + 1)
    ensures Feeds(adj, directed, s2)
  {
    forall k | 1 <= k < |s2.seen|
      ensures Fed(adj, directed, s2, k)
    {
      assert Fed(adj, directed, s1, k);
      var j :| NextOf(adj, s1.seen, k, j) && Discovery(adj, directed, s1, k, j);
      assert Discovery(adj, directed, s2, k, j);
    }
  }

  lemma {:induction false} RunFeeds(adj: Adj, directed: bool, st: Sweep, r: Sweep)
    requires Base(adj, st) && Closed(adj) && Processed(adj, st)
    requires RanksOk(st) && Feeds(adj, directed, st)
    requires r == Run(adj, directed, st)
    ensures Feeds(adj, directed, r)
    decreases |adj.Keys| - |st.seen|, |st.seen| - st.head
  {
    if st.head < |st.seen| {
      var ns := adj[st.seen[st.head]];
      var s1 := Scan(adj, directed, ns, st);
      assert ns[0..] == ns;
      ScanFeeds(adj, directed, 0, st, s1);
      ScanRanks(adj, directed, ns, st, s1);
      var s2 := s1.(head := s1.head + 1);
      ProcessedNext(adj, directed, st, s1, s2);
      FeedsNext(adj, directed, s1, s2);
      RunNext(adj, directed, st, s1, s2, r);
      RunFeeds(adj, directed, s2, r);
    }
  }

  /** The finished search: every queued node after the first is `Fed`. */
  lemma Settled(adj: Adj, directed: bool, start: string, s: Sweep)
    requires Closed(adj) && start in adj
    requires s == Run(adj, directed, Initial(start))
    ensures Base(adj, s) && s.head == |s.seen| && Processed(adj, s) && Feeds(adj, directed, s)
  {
    Started(adj, directed, start, s);
    var init := Initial(start);
    assert Base(adj, init) && Processed(adj, init) && RanksOk(init) && Feeds(adj, directed, init);
    RunFeeds(adj, directed, init, s);
  }

  // ---------------------------------------------------------------------
  // What the finished search means

  /** The order `BreadthFirst` returns is a breadth-first order. */
  lemma BreadthFirstIsBfsOrder(adj: Adj, directed: bool, start: string)
    requires Closed(adj) && start in adj
    ensures IsBfsOrder(adj, start, BreadthFirst(adj, directed, start).order)
  {
    var s := Run(adj, directed, Initial(start));
    Settled(adj, directed, start, s);
    var r := BreadthFirst(adj, directed, start).order;
    assert r == s.seen;
    forall k | 1 <= k < |r|
      ensures BfsStep(adj, r, k)
    {
      assert Fed(adj, directed, s, k);
    }
    forall i | 0 <= i < |r|
      ensures FirstNew(adj[r[i]], r) == None
    {
    }
  }

  /** A step fixes the node it resumes from: two sequences that agree
      before `k` make the same step at `k`. */
  lemma SameStep(adj: Adj, r1: seq<string>, r2: seq<string>, k: int, j1: int, j2: int)
    requires NextOf(adj, r1, k, j1) && NextOf(adj, r2, k, j2) && r1[..k] == r2[..k]
    ensures j1 == j2 && r1[k] == r2[k]
  {
    var s := r1[..k];
    assert r1[j1] == s[j1] == r2[j1];
    assert r1[j2] == s[j2] == r2[j2];
  }

  /** In a state where every queued node is `Fed`, the node each step
      resumes from is the recorded discoverer. */
  lemma FedParents(adj: Adj, directed: bool, s: Sweep, t: Traversal)
    requires InKeys(adj, s.seen) && Feeds(adj, directed, s)
    requires t == Traversal(s.seen, s.levels, s.ranks)
    ensures forall k, j :: NextOf(adj, t.order, k, j) ==> ReachedAlong(adj, directed, t, k, j)
  {
    forall k, j | NextOf(adj, t.order, k, j)
      ensures ReachedAlong(adj, directed, t, k, j)
    {
      assert Fed(adj, directed, s, k);
      var j' :| NextOf(adj, s.seen, k, j') && Discovery(adj, directed, s, k, j');
      SameStep(adj, s.seen, s.seen, k, j, j');
    }
  }

  /** The discoverer and the rank of every node of `BreadthFirst`'s order:
      it was reached from the earliest node that had it as an unvisited
      neighbour, one level further out, along an edge ranked with its
      position. */
  lemma BreadthFirstParents(adj: Adj, directed: bool, start: string)
    requires Closed(adj) && start in adj
    ensures var t := BreadthFirst(adj, directed, start);
            forall k, j :: NextOf(adj, t.order, k, j) ==> ReachedAlong(adj, directed, t, k, j)
  {
    var s := Run(adj, directed, Initial(start));
    Settled(adj, directed, start, s);
    FedParents(adj, directed, s, BreadthFirst(adj, directed, start));
  }

  /** Every ranked key is the discovery edge of the node at its rank:
      there are no other ranks. */
  lemma BreadthFirstRanks(adj: Adj, directed: bool, start: string)
    requires Closed(adj) && start in adj
    ensures var t := BreadthFirst(adj, directed, start);
            forall key :: key in t.ranks ==> exists j ::
              NextOf(adj, t.order, t.ranks[key], j) && key == Key(directed, t.order[j], t.order[t.ranks[key]])
  {
    var t := BreadthFirst(adj, directed, start);
    BreadthFirstIsBfsOrder(adj, directed, start);
    BreadthFirstParents(adj, directed, start);
    forall key | key in t.ranks
      ensures exists j :: NextOf(adj, t.order, t.ranks[key], j) && key == Key(directed, t.order[j], t.order[t.ranks[key]])
    {
      var k := t.ranks[key];
      assert BfsStep(adj, t.order, k);
      var j :| NextOf(adj, t.order, k, j);
      assert ReachedAlong(adj, directed, t, k, j);
    }
  }

  // ---------------------------------------------------------------------
  // There is only one breadth-first order

  /** Two breadth-first orders from the same node agree on their common
      length. */
  lemma {:induction false} SamePrefix(adj: Adj, start: string, r1: seq<string>, r2: seq<string>, k: nat)
    requires 0 < |r1| && 0 < |r2| && r1[0] == start == r2[0]
    requires Queued(adj, r1) && Queued(adj, r2)
    requires k <= |r1| && k <= |r2|
    ensures r1[..k] == r2[..k]
  {
    if k == 1 {
      assert r1[..1] == [start] == r2[..1];
    } else if k > 1 {
      SamePrefix(adj, start, r1, r2, k - 1);
      assert BfsStep(adj, r1, k - 1) && BfsStep(adj, r2, k - 1);
      var j1 :| NextOf(adj, r1, k - 1, j1);
      var j2 :| NextOf(adj, r2, k - 1, j2);
      SameStep(adj, r1, r2, k - 1, j1, j2);
      assert r1[..k] == r1[..k - 1] + [r1[k - 1]];
      assert r2[..k] == r2[..k - 1] + [r2[k - 1]];
    }
  }

  /** Once no node of `r1` has an unvisited neighbour, a sequence that
      extends `r1` makes no breadth-first step after it. */
  lemma NoStepAfterEnd(adj: Adj, r1: seq<string>, r2: seq<string>)
    requires Ended(adj, r1) && |r1| < |r2| && r2[..|r1|] == r1
    ensures !BfsStep(adj, r2, |r1|)
  {
    var n := |r1|;
    forall j | 0 <= j < n
      ensures !NextOf(adj, r2, n, j)
    {
      assert r2[j] == r1[j];
      assert FirstNew(adj[r1[j]], r1) == None;
    }
  }

  /** A breadth-first order that is a prefix of another is all of it. */
  lemma PrefixOrderIsWhole(adj: Adj, r1: seq<string>, r2: seq<string>)
    requires Ended(adj, r1) && Queued(adj, r2)
    requires 0 < |r1| <= |r2| && r2[..|r1|] == r1
    ensures r1 == r2
  {
    if |r1| < |r2| {
      NoStepAfterEnd(adj, r1, r2);
    }
    assert r2 == r2[..|r2|];
  }

  /** There is exactly one breadth-first order from a node. */
  lemma BfsOrderUnique(adj: Adj, start: string, r1: seq<string>, r2: seq<string>)
    requires IsBfsOrder(adj, start, r1) && IsBfsOrder(adj, start, r2)
    ensures r1 == r2
  {
    if |r1| <= |r2| {
      SamePrefix(adj, start, r1, r2, |r1|);
      assert r1 == r1[..|r1|];
      PrefixOrderIsWhole(adj, r1, r2);
    } else {
      SamePrefix(adj, start, r1, r2, |r2|);
      assert r2 == r2[..|r2|];
      PrefixOrderIsWhole(adj, r2, r1);
    }
  }

  /** `BreadthFirst` returns an order exactly when it is the breadth-first
      order from `start`. */
  lemma BreadthFirstIsTheBfsOrder(adj: Adj, directed: bool, start: string, r: seq<string>)
    requires Closed(adj) && start in adj
    ensures IsBfsOrder(adj, start, r) <==> r == BreadthFirst(adj, directed, start).order
  {
    BreadthFirstIsBfsOrder(adj, directed, start);
    if IsBfsOrder(adj, start, r) {
      BfsOrderUnique(adj, start, r, BreadthFirst(adj, directed, start).order);
    }
  }

  /** Clicking "BFS" yields the breadth-first order of the built lists,
      with each node's discovery edge ranked by its position. */
  lemma HandleBfsOrder(nodes: seq<string>, edges: seq<Edge>, directed: bool, start: string)
    requires NodesOk(nodes) && EndsOk(nodes, edges)
    ensures var r := HandleBfs(nodes, edges, directed, start);
            r.Found? ==>
              IsBfsOrder(BuildAdj(nodes, edges, directed).value, start, r.t.order) &&
              (forall k, j :: NextOf(BuildAdj(nodes, edges, directed).value, r.t.order, k, j) ==>
                 ReachedAlong(BuildAdj(nodes, edges, directed).value, directed, r.t, k, j))
  {
    if start != "" && start in nodes {
      BuildAdjOnValidGraph(nodes, edges, directed);
      BreadthFirstIsBfsOrder(BuildAdj(nodes, edges, directed).value, directed, start);
      BreadthFirstParents(BuildAdj(nodes, edges, directed).value, directed, start);
    }
  }
}
