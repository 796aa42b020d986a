/** The order in which `dfs` (GraphVisualizer.jsx, lines 312-319) visits the
    nodes: each node is the first unvisited neighbour, in adjacency-list
    order, of the most recently visited node that still has one. Stated
    here without reference to the search, then shown to pin down exactly
    the sequence `Dfs.Search` returns. */
module DfsOrder {
  import opened Optional
  import opened Graph
  import opened Adjacency
  import opened Dfs

  /** The first value of `ns` that is not in `seen`. */
  function FirstNew(ns: seq<string>, seen: seq<string>): (r: Option<string>)
    ensures r.None? <==> forall i :: 0 <= i < |ns| ==> ns[i] in seen
    ensures r.Some? ==> r.value in ns && r.value !in seen
  {
    if |ns| == 0 then None
    else if ns[0] in seen then FirstNew(ns[1..], seen)
    else Some(ns[0])
  }

  /** Skipping a prefix of already seen values does not change the answer. */
  lemma {:induction false} FirstNewSkip(ns: seq<string>, seen: seq<string>, m: nat)
    requires m <= |ns| && forall i :: 0 <= i < m ==> ns[i] in seen
    ensures FirstNew(ns, seen) == FirstNew(ns[m..], seen)
  {
    if m > 0 {
      FirstNewSkip(ns[1..], seen, m - 1);
      assert ns[1..][m - 1..] == ns[m..];
    }
  }

  /** After visiting `r[..k]`, the search resumes at `r[j]` and goes to
      `r[k]`: `r[j]` is the latest visited node with an unvisited
      neighbour, and `r[k]` is the first such neighbour. */
  ghost predicate NextFrom(adj: Adj, r: seq<string>, k: int, j: int) {
    0 <= j < k < |r| && r[j] in adj && FirstNew(adj[r[j]], r[..k]) == Some(r[k]) &&
    forall i :: j < i < k ==> r[i] in adj && FirstNew(adj[r[i]], r[..k]) == None
  }

  /** `r[k]` is where a depth-first search goes after `r[..k]`. */
  ghost predicate DfsStep(adj: Adj, r: seq<string>, k: int) {
    exists j :: NextFrom(adj, r, k, j)
  }

  /** `r[k]` is a depth-first step that resumes at or after position `base`. */
  ghost predicate StepAfter(adj: Adj, r: seq<string>, k: int, base: int) {
    exists j :: base <= j && NextFrom(adj, r, k, j)
  }

  /** Every node of `r` from position `lo` on is a depth-first step that
      resumes at or after position `base`. */
  ghost predicate StepsFrom(adj: Adj, r: seq<string>, lo: nat, base: nat) {
    forall k :: lo <= k < |r| ==> StepAfter(adj, r, k, base)
  }

  /** A depth-first order from `start`: it begins there, every later node
      is a depth-first step, and it ends only when no node in it has an
      unvisited neighbour. */
  ghost predicate IsDfsOrder(adj: Adj, start: string, r: seq<string>) {
    |r| > 0 && r[0] == start && Stepping(adj, r) && Ended(adj, r)
  }

  /** Every node of `r` after the first is a depth-first step. */
  ghost predicate Stepping(adj: Adj, r: seq<string>) {
    forall k :: 1 <= k < |r| ==> DfsStep(adj, r, k)
  }

  /** No node of `r` has a neighbour outside `r`. */
  predicate Ended(adj: Adj, r: seq<string>) {
    InKeys(adj, r) && forall i :: 0 <= i < |r| ==> FirstNew(adj[r[i]], r) == None
  }

  /** A step of `o` is still a step of any sequence that extends `o`. */
  lemma StepsGrow(adj: Adj, o: seq<string>, r: seq<string>, lo: nat, base: nat, base': nat)
    requires Grows(o, r) && StepsFrom(adj, o, lo, base) && base' <= base
    ensures forall k :: lo <= k < |o| ==> StepAfter(adj, r, k, base')
  {
    forall k | lo <= k < |o|
      ensures StepAfter(adj, r, k, base')
    {
      assert StepAfter(adj, o, k, base);
      var j :| base <= j && NextFrom(adj, o, k, j);
      assert r[..k] == o[..k];
      assert NextFrom(adj, r, k, j);
    }
  }

  /** Placing the first unvisited neighbour of `ord[q]` right after `ord`
      is a depth-first step resuming at `q`, when nothing after `q` has
      unvisited neighbours. */
  lemma PlaceStep(adj: Adj, ord: seq<string>, q: nat, m: nat, r: seq<string>)
    requires InKeys(adj, ord) && q < |ord| && m < |adj[ord[q]]|
    requires forall i :: 0 <= i < m ==> adj[ord[q]][i] in ord
    requires adj[ord[q]][m] !in ord
    requires Complete(adj, ord, q + 1)
    requires Grows(ord, r) && |ord| < |r| && r[|ord|] == adj[ord[q]][m]
    ensures NextFrom(adj, r, |ord|, q)
  {
    var k := |ord|;
    assert r[..k] == ord;
    FirstNewSkip(adj[ord[q]], ord, m);
    assert adj[ord[q]][m..][0] == adj[ord[q]][m];
    forall i | q < i < k
      ensures r[i] in adj && FirstNew(adj[r[i]], r[..k]) == None
    {
      assert r[i] == ord[i];
    }
  }

  /** Extending `ord` by nodes whose neighbours are all present keeps the
      later nodes of `ord` complete. */
  lemma CompleteGrows(adj: Adj, ord: seq<string>, o: seq<string>, lo: nat)
    requires InKeys(adj, ord) && InKeys(adj, o) && Grows(ord, o)
    requires Complete(adj, ord, lo) && Complete(adj, o, |ord|)
    ensures Complete(adj, o, lo)
  {
    forall k, i | lo <= k < |o| && 0 <= i < |adj[o[k]]|
      ensures adj[o[k]][i] in o
    {
      if k < |ord| {
        assert o[k] == ord[k];
        assert adj[ord[k]][i] in ord;
      }
    }
  }

  /** The first `m` values of `ns` are in `ord`, and `ns[m]` is where
      `ord` was extended: the first `m + 1` are in the extension. */
  lemma SeenGrows(ns: seq<string>, ord: seq<string>, o: seq<string>, m: nat)
    requires m < |ns| && forall i :: 0 <= i < m ==> ns[i] in ord
    requires Grows(ord, o) && ns[m] in o
    ensures forall i :: 0 <= i < m + 1 ==> ns[i] in o
  {
    assert forall i :: 0 <= i < |ord| ==> o[i] == ord[i];
  }

  /** The steps after `ord` in `o`, the step placing `r[|ord|]`, and the
      steps after `o` in `r` together cover every step after `ord` in `r`. */
  lemma JoinSteps(adj: Adj, ord: seq<string>, o: seq<string>, r: seq<string>, q: nat)
    requires q < |ord| < |o| && Grows(ord, o) && Grows(o, r)
    requires StepsFrom(adj, o, |ord| + 1, |ord|) && StepsFrom(adj, r, |o|, q)
    requires NextFrom(adj, r, |ord|, q)
    ensures StepsFrom(adj, r, |ord|, q)
  {
    StepsGrow(adj, o, r, |ord| + 1, |ord|, q);
    assert StepAfter(adj, r, |ord|, q);
  }

  /** `Visit` from `ord` makes only depth-first steps after placing `u`. */
  lemma {:induction false} VisitSteps(adj: Adj, u: string, ord: seq<string>)
    requires Closed(adj) && u in adj && Distinct(ord) && InKeys(adj, ord)
    ensures StepsFrom(adj, Visit(adj, u, ord), |ord| + 1, |ord|)
    decreases |adj.Keys| - |ord|, 0, 0
  {
    if u !in ord {
      var o := ord + [u];
      DistinctBound(o, adj.Keys);
      assert adj[u][0..] == adj[u];
      VisitAllSteps(adj, adj[u], o, |ord|, 0);
    }
  }

  /** `VisitAll` over the neighbours of `ord[q]` from position `m` on makes
      only depth-first steps resuming at or after `q`, provided the earlier
      neighbours are visited and nothing after `q` has unvisited ones. */
  lemma {:induction false} VisitAllSteps(adj: Adj, ns: seq<string>, ord: seq<string>, q: nat, m: nat)
    requires Closed(adj) && InKeys(adj, ns) && Distinct(ord) && InKeys(adj, ord)
    requires q < |ord| && m <= |adj[ord[q]]| && ns == adj[ord[q]][m..]
    requires forall i :: 0 <= i < m ==> adj[ord[q]][i] in ord
    requires Complete(adj, ord, q + 1)
    ensures StepsFrom(adj, VisitAll(adj, ns, ord), |ord|, q)
    decreases |adj.Keys| - |ord|, 1, |ns|
  {
    if |ns| > 0 {
      var p := ord[q];
      var o1 := Visit(adj, ns[0], ord);
      DistinctBound(o1, adj.Keys);
      var r := VisitAll(adj, ns[1..], o1);
      assert r == VisitAll(adj, ns, ord);
      assert adj[p][m] == ns[0];
      assert adj[p][m + 1..] == ns[1..];
      if ns[0] in ord {
        VisitAllSteps(adj, ns[1..], ord, q, m + 1);
      } else {
        VisitSteps(adj, ns[0], ord);
        assert o1[q] == p;
        CompleteGrows(adj, ord, o1, q + 1);
        SeenGrows(adj[p], ord, o1, m);
        VisitAllSteps(adj, ns[1..], o1, q, m + 1);
        PlaceStep(adj, ord, q, m, r);
        JoinSteps(adj, ord, o1, r, q);
      }
    }
  }

  /** Every node after the first in a search's result is a depth-first step. */
  lemma SearchSteps(adj: Adj, start: string)
    requires Closed(adj) && start in adj
    ensures forall k :: 1 <= k < |Search(adj, start)| ==> DfsStep(adj, Search(adj, start), k)
  {
    VisitSteps(adj, start, []);
    var r := Search(adj, start);
    forall k | 1 <= k < |r|
      ensures DfsStep(adj, r, k)
    {
      assert StepAfter(adj, r, k, 0);
    }
  }

  /** The search's result is a depth-first order from `start`. */
  lemma SearchIsDfsOrder(adj: Adj, start: string)
    requires Closed(adj) && start in adj
    ensures IsDfsOrder(adj, start, Search(adj, start))
  {
    SearchSteps(adj, start);
  }

  /** Two sequences that agree before `k` make the same step at `k`. */
  lemma SameStep(adj: Adj, r1: seq<string>, r2: seq<string>, k: int, j1: int, j2: int)
    requires NextFrom(adj, r1, k, j1) && NextFrom(adj, r2, k, j2) && r1[..k] == r2[..k]
    ensures j1 == j2 && r1[k] == r2[k]
  {
    var s := r1[..k];
    assert r1[j1] == s[j1] == r2[j1];
    assert r1[j2] == s[j2] == r2[j2];
  }

  /** Two depth-first orders from the same node agree on their common length. */
  lemma {:induction false} SamePrefix(adj: Adj, start: string, r1: seq<string>, r2: seq<string>, k: nat)
    requires 0 < |r1| && 0 < |r2| && r1[0] == start == r2[0]
    requires Stepping(adj, r1) && Stepping(adj, r2)
    requires k <= |r1| && k <= |r2|
    ensures r1[..k] == r2[..k]
  {
    if k == 1 {
      assert r1[..1] == [start] == r2[..1];
    } else if k > 1 {
      SamePrefix(adj, start, r1, r2, k - 1);
      assert DfsStep(adj, r1, k - 1) && DfsStep(adj, r2, k - 1);
      var j1 :| NextFrom(adj, r1, k - 1, j1);
      var j2 :| NextFrom(adj, r2, k - 1, j2);
      SameStep(adj, r1, r2, k - 1, j1, j2);
      assert r1[..k] == r1[..k - 1] + [r1[k - 1]];
      assert r2[..k] == r2[..k - 1] + [r2[k - 1]];
    }
  }

  /** Once no node of `r1` has an unvisited neighbour, a sequence that
      extends `r1` makes no depth-first step after it. */
  lemma NoStepAfterEnd(adj: Adj, r1: seq<string>, r2: seq<string>)
    requires Ended(adj, r1) && |r1| < |r2| && r2[..|r1|] == r1
    ensures !DfsStep(adj, r2, |r1|)
  {
    var n := |r1|;
    forall j | 0 <= j < n
      ensures !NextFrom(adj, r2, n, j)
    {
      assert r2[j] == r1[j];
      assert FirstNew(adj[r1[j]], r1) == None;
    }
  }

  /** A depth-first order that is a prefix of another is all of it. */
  lemma PrefixOrderIsWhole(adj: Adj, r1: seq<string>, r2: seq<string>)
    requires Ended(adj, r1) && Stepping(adj, r2)
    requires 0 < |r1| <= |r2| && r2[..|r1|] == r1
    ensures r1 == r2
  {
    if |r1| < |r2| {
      NoStepAfterEnd(adj, r1, r2);
    }
    assert r2 == r2[..|r2|];
  }

  /** There is exactly one depth-first order from a node. */
  lemma DfsOrderUnique(adj: Adj, start: string, r1: seq<string>, r2: seq<string>)
    requires IsDfsOrder(adj, start, r1) && IsDfsOrder(adj, start, r2)
    ensures r1 == r2
  {
    if |r1| <= |r2| {
      SamePrefix(adj, start, r1, r2, |r1|);
      assert r1 == r1[..|r1|];
      PrefixOrderIsWhole(adj, r1, r2);
    } else {
      SamePrefix(adj, start, r1, r2, |r2|);
      assert r2 == r2[..|r2|];
      PrefixOrderIsWhole(adj, r2, r1);
    }
  }

  /** `Search` returns a sequence exactly when it is the depth-first order
      from `start`. */
  lemma SearchIsTheDfsOrder(adj: Adj, start: string, r: seq<string>)
    requires Closed(adj) && start in adj
    ensures IsDfsOrder(adj, start, r) <==> r == Search(adj, start)
  {
    SearchIsDfsOrder(adj, start);
    if IsDfsOrder(adj, start, r) {
      DfsOrderUnique(adj, start, r, Search(adj, start));
    }
  }

  /** Clicking "DFS" yields the depth-first order of the built lists. */
  lemma HandleDfsOrder(nodes: seq<string>, edges: seq<Edge>, directed: bool, start: string)
    requires NodesOk(nodes) && EndsOk(nodes, edges)
    ensures var r := HandleDfs(nodes, edges, directed, start);
            r.Order? ==> IsDfsOrder(BuildAdj(nodes, edges, directed).value, start, r.order)
  {
    if start != "" && start in nodes {
      BuildAdjOnValidGraph(nodes, edges, directed);
      SearchIsDfsOrder(BuildAdj(nodes, edges, directed).value, start);
    }
  }
}
