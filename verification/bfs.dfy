/** Breadth-first search of the graph view (`handleBFS`,
    GraphVisualizer.jsx, lines 326-358): the visiting order, the level of
    every node, and the rank of every discovery edge, together with the
    edge keys the drawing looks ranks up by (lines 418-428). */
module Bfs {
  import opened Optional
  import opened Graph
  import opened Adjacency
  import opened Dfs

  // ---------------------------------------------------------------------
  // Edge keys

  /** The key an edge's rank is stored under: the ordered pair when the
      graph is directed, the unordered pair when it is not. (The source
      joins the two ids with '-' after sorting them when undirected; the
      string form is not modelled.) */
  datatype EdgeKey = Arc(from: string, to: string) | Link(ends: set<string>)

  function Key(directed: bool, a: string, b: string): (k: EdgeKey)
    ensures directed <==> k.Arc?
  {
    if directed then Arc(a, b) else Link({a, b})
  }

  /** Undirected keys ignore orientation, directed keys keep it, and in
      both cases a key determines its two ends. */
  lemma KeyMatches(directed: bool, a: string, b: string, c: string, e: string)
    ensures Key(directed, a, b) == Key(directed, c, e) <==>
      (a == c && b == e) || (!directed && a == e && b == c)
  {
    if !directed && Key(directed, a, b) == Key(directed, c, e) {
      assert {a, b} == {c, e};
      assert a in {c, e} && b in {c, e} && c in {a, b} && e in {a, b};
    }
  }

  /** Both ends of `key` are among `s`. */
  predicate KeyWithin(key: EdgeKey, s: seq<string>) {
    match key
    case Arc(a, b) => a in s && b in s
    case Link(ends) => forall x :: x in ends ==> x in s
  }

  lemma KeyHasEnds(directed: bool, a: string, b: string, s: seq<string>)
    requires KeyWithin(Key(directed, a, b), s)
    ensures a in s && b in s
  {
    if !directed {
      assert a in {a, b} && b in {a, b};
    }
  }

  /** `isEdgeTraversed` (lines 418-421): the edge was a discovery edge. */
  function IsEdgeTraversed(ranks: map<EdgeKey, nat>, directed: bool, a: string, b: string): (r: bool)
    ensures r <==> RankOf(ranks, directed, a, b).Some?
  {
    Key(directed, a, b) in ranks
  }

  /** `getEdgeOrderNumber` (lines 424-427): the rank, when there is one. */
  function RankOf(ranks: map<EdgeKey, nat>, directed: bool, a: string, b: string): (r: Option<nat>)
    ensures r.Some? <==> Key(directed, a, b) in ranks
    ensures r.Some? ==> r.value == ranks[Key(directed, a, b)]
  {
    if Key(directed, a, b) in ranks then Some(ranks[Key(directed, a, b)]) else None
  }

  /** Undirected, the two orientations of an edge share one rank. */
  lemma RankSymmetric(ranks: map<EdgeKey, nat>, a: string, b: string)
    ensures RankOf(ranks, false, a, b) == RankOf(ranks, false, b, a)
    ensures IsEdgeTraversed(ranks, false, a, b) == IsEdgeTraversed(ranks, false, b, a)
  {
    KeyMatches(false, a, b, b, a);
  }

  // ---------------------------------------------------------------------
  // The search

  /** The search state. The source keeps the visiting order, the queue and
      the visited set apart; here `seen` lists every node ever queued in
      queueing order, so the order is `seen[..head]`, the queue is
      `seen[head..]`, the visited set is the set of `seen`'s elements, and
      `orderCounter` is `|seen|`. */
  datatype Sweep = Sweep(seen: seq<string>, head: nat, levels: map<string, int>, ranks: map<EdgeKey, nat>)

  /** What every step needs: distinct queued nodes of the graph, each with
      a level. */
  predicate Base(adj: Adj, st: Sweep) {
    st.head <= |st.seen| && Distinct(st.seen) && InKeys(adj, st.seen) &&
    forall k :: 0 <= k < |st.seen| ==> st.seen[k] in st.levels
  }

  /** Only queued nodes have a level. */
  ghost predicate Exact(st: Sweep) {
    forall v :: v in st.levels ==> v in st.seen
  }

  /** The search started at `start`, which is level 0. */
  predicate Rooted(start: string, st: Sweep) {
    1 <= |st.seen| && st.seen[0] == start && start in st.levels && st.levels[start] == 0
  }

  /** Levels never decrease along `seen`. */
  predicate LevelsRise(st: Sweep)
    requires forall k :: 0 <= k < |st.seen| ==> st.seen[k] in st.levels
  {
    forall i, j :: 0 <= i < j < |st.seen| ==> st.levels[st.seen[i]] <= st.levels[st.seen[j]]
  }

  /** The last queued node is at most one level below `lvl`. */
  predicate Frontier(st: Sweep, lvl: int)
    requires |st.seen| > 0 && st.seen[|st.seen| - 1] in st.levels
  {
    st.levels[st.seen[|st.seen| - 1]] <= lvl + 1
  }

  /** Ranks run over `1..|seen|-1`, never twice, on keys between queued
      nodes. */
  predicate RanksOk(st: Sweep) {
    (forall key :: key in st.ranks ==> 1 <= st.ranks[key] < |st.seen| && KeyWithin(key, st.seen)) &&
    (forall a, b :: a in st.ranks && b in st.ranks && a != b ==> st.ranks[a] != st.ranks[b])
  }

  /** `seen[k]` was discovered along the edge from `seen[j]`: one level
      further out, with the edge ranked `k`. */
  predicate Discovery(adj: Adj, directed: bool, st: Sweep, k: int, j: int)
    requires 0 <= j < k < |st.seen| && InKeys(adj, st.seen)
  {
    st.seen[k] in adj[st.seen[j]] &&
    st.seen[k] in st.levels && st.seen[j] in st.levels &&
    st.levels[st.seen[k]] == st.levels[st.seen[j]] + 1 &&
    Key(directed, st.seen[j], st.seen[k]) in st.ranks &&
    st.ranks[Key(directed, st.seen[j], st.seen[k])] == k
  }

  /** `seen[k]` has a discovery edge from an earlier node. */
  ghost predicate HasDiscovery(adj: Adj, directed: bool, st: Sweep, k: int)
    requires 0 <= k < |st.seen| && InKeys(adj, st.seen)
  {
    exists j :: 0 <= j < k && Discovery(adj, directed, st, k, j)
  }

  /** Every node after the first has a discovery edge from an earlier node. */
  ghost predicate Discovered(adj: Adj, directed: bool, st: Sweep)
    requires InKeys(adj, st.seen)
  {
    forall k :: 1 <= k < |st.seen| ==> HasDiscovery(adj, directed, st, k)
  }

  /** Every dequeued node has all its neighbours queued. */
  predicate Processed(adj: Adj, st: Sweep)
    requires st.head <= |st.seen| && InKeys(adj, st.seen)
  {
    forall k, i :: 0 <= k < st.head && 0 <= i < |adj[st.seen[k]]| ==> adj[st.seen[k]][i] in st.seen
  }

  /** Queue `nb`, discovered from the node at the head: the body of the
      `if (!visitedSet.has(neighbor))` branch (lines 346-353). */
  function Enqueue(directed: bool, st: Sweep, nb: string): (r: Sweep)
    requires st.head < |st.seen| && st.seen[st.head] in st.levels
    ensures r.seen == st.seen + [nb] && r.head == st.head
  {
    var node := st.seen[st.head];
    Sweep(st.seen + [nb], st.head,
          st.levels[nb := st.levels[node] + 1],
          st.ranks[Key(directed, node, nb) := |st.seen|])
  }

  /** The neighbour loop for the node at the head (lines 345-354): queue
      every neighbour not seen yet. */
  function Scan(adj: Adj, directed: bool, ns: seq<string>, st: Sweep): (r: Sweep)
    requires Base(adj, st) && st.head < |st.seen| && InKeys(adj, ns)
    ensures Base(adj, r) && r.head == st.head && Grows(st.seen, r.seen)
    ensures forall i :: 0 <= i < |ns| ==> ns[i] in r.seen
    decreases |ns|
  {
    if |ns| == 0 then st
    else
      var next := if ns[0] in st.seen then st else Enqueue(directed, st, ns[0]);
      EnqueueBase(adj, directed, ns, st, next);
      var r := Scan(adj, directed, ns[1..], next);
      ScanStep(st.seen, next.seen, ns, r.seen);
      r
  }

  lemma EnqueueBase(adj: Adj, directed: bool, ns: seq<string>, st: Sweep, next: Sweep)
    requires Base(adj, st) && st.head < |st.seen| && InKeys(adj, ns) && |ns| > 0
    requires next == if ns[0] in st.seen then st else Enqueue(directed, st, ns[0])
    ensures Base(adj, next) && next.head == st.head && Grows(st.seen, next.seen)
    ensures ns[0] in next.seen && InKeys(adj, ns[1..])
  {
    if ns[0] !in st.seen {
      DistinctSnoc(st.seen, ns[0]);
      assert next.seen[..|st.seen|] == st.seen;
    }
  }

  lemma ScanStep(seen: seq<string>, next: seq<string>, ns: seq<string>, r: seq<string>)
    requires |ns| > 0 && ns[0] in next && Grows(seen, next) && Grows(next, r)
    requires forall i :: 0 <= i < |ns[1..]| ==> ns[1..][i] in r
    ensures forall i :: 0 <= i < |ns| ==> ns[i] in r
    ensures Grows(seen, r)
  {
    assert forall i :: 1 <= i < |ns| ==> ns[i] == ns[1..][i - 1];
    var k :| 0 <= k < |next| && next[k] == ns[0];
    assert r[k] == next[k];
    assert r[..|seen|] == r[..|next|][..|seen|];
  }

  /** The `while (queue.length)` loop (lines 341-356): dequeue the head,
      scan its neighbours, until the queue is empty. */
  function Run(adj: Adj, directed: bool, st: Sweep): (r: Sweep)
    requires Base(adj, st) && Closed(adj)
    ensures Base(adj, r) && r.head == |r.seen| && Grows(st.seen, r.seen)
    decreases |adj.Keys| - |st.seen|, |st.seen| - st.head
  {
    if st.head == |st.seen| then st
    else
      var node := st.seen[st.head];
      var s1 := Scan(adj, directed, adj[node], st);
      var s2 := s1.(head := s1.head + 1);
      DistinctBound(s2.seen, adj.Keys);
      var r := Run(adj, directed, s2);
      GrowsTrans(st.seen, s2.seen, r.seen);
      r
  }

  lemma GrowsTrans(a: seq<string>, b: seq<string>, c: seq<string>)
    requires Grows(a, b) && Grows(b, c)
    ensures Grows(a, c)
  {
    assert c[..|a|] == c[..|b|][..|a|];
  }

  // ---------------------------------------------------------------------
  // What one scan keeps

  lemma EnqueueLevels(st: Sweep, nb: string, e: Sweep, directed: bool)
    requires st.head < |st.seen| && nb !in st.seen
    requires forall k :: 0 <= k < |st.seen| ==> st.seen[k] in st.levels
    requires LevelsRise(st) && Frontier(st, st.levels[st.seen[st.head]])
    requires e == Enqueue(directed, st, nb)
    ensures forall k :: 0 <= k < |e.seen| ==> e.seen[k] in e.levels
    ensures LevelsRise(e)
    ensures e.levels[e.seen[e.head]] == st.levels[st.seen[st.head]]
    ensures Frontier(e, e.levels[e.seen[e.head]])
  {
    assert forall k :: 0 <= k < |st.seen| ==> e.seen[k] == st.seen[k] && e.levels[e.seen[k]] == st.levels[st.seen[k]];
  }

  lemma {:induction false} ScanOldLevels(adj: Adj, directed: bool, ns: seq<string>, st: Sweep, r: Sweep)
    requires Base(adj, st) && st.head < |st.seen| && InKeys(adj, ns)
    requires r == Scan(adj, directed, ns, st)
    ensures forall k :: 0 <= k < |st.seen| ==> r.levels[st.seen[k]] == st.levels[st.seen[k]]
    decreases |ns|
  {
    if |ns| > 0 {
      var next := if ns[0] in st.seen then st else Enqueue(directed, st, ns[0]);
      EnqueueBase(adj, directed, ns, st, next);
      ScanOldLevels(adj, directed, ns[1..], next, r);
      assert forall k :: 0 <= k < |st.seen| ==> next.seen[k] == st.seen[k];
    }
  }

  lemma {:induction false} ScanExact(adj: Adj, directed: bool, ns: seq<string>, st: Sweep, r: Sweep)
    requires Base(adj, st) && st.head < |st.seen| && InKeys(adj, ns) && Exact(st)
    requires r == Scan(adj, directed, ns, st)
    ensures Exact(r)
    decreases |ns|
  {
    if |ns| > 0 {
      var next := if ns[0] in st.seen then st else Enqueue(directed, st, ns[0]);
      EnqueueBase(adj, directed, ns, st, next);
      ScanExact(adj, directed, ns[1..], next, r);
    }
  }

  lemma {:induction false} ScanLevels(adj: Adj, directed: bool, ns: seq<string>, st: Sweep, r: Sweep)
    requires Base(adj, st) && st.head < |st.seen| && InKeys(adj, ns)
    requires LevelsRise(st) && Frontier(st, st.levels[st.seen[st.head]])
    requires r == Scan(adj, directed, ns, st)
    ensures LevelsRise(r)
    ensures r.levels[r.seen[r.head]] == st.levels[st.seen[st.head]]
    ensures Frontier(r, r.levels[r.seen[r.head]])
    decreases |ns|
  {
    if |ns| > 0 {
      var next := if ns[0] in st.seen then st else Enqueue(directed, st, ns[0]);
      EnqueueBase(adj, directed, ns, st, next);
      if ns[0] !in st.seen {
        EnqueueLevels(st, ns[0], next, directed);
      }
      ScanLevels(adj, directed, ns[1..], next, r);
    }
  }

  lemma EnqueueRanks(adj: Adj, directed: bool, st: Sweep, nb: string, e: Sweep)
    requires Base(adj, st) && st.head < |st.seen| && nb !in st.seen && RanksOk(st)
    requires e == Enqueue(directed, st, nb)
    ensures RanksOk(e)
    ensures Key(directed, st.seen[st.head], nb) !in st.ranks
    ensures forall key :: key in st.ranks ==> key in e.ranks && e.ranks[key] == st.ranks[key]
  {
    var node := st.seen[st.head];
    var key := Key(directed, node, nb);
    if key in st.ranks {
      KeyHasEnds(directed, node, nb, st.seen);
      assert false;
    }
    assert forall x :: x in st.seen ==> x in e.seen;
    if !directed {
      assert forall x :: x in {node, nb} ==> x in e.seen;
    }
  }

  lemma {:induction false} ScanRanks(adj: Adj, directed: bool, ns: seq<string>, st: Sweep, r: Sweep)
    requires Base(adj, st) && st.head < |st.seen| && InKeys(adj, ns) && RanksOk(st)
    requires r == Scan(adj, directed, ns, st)
    ensures RanksOk(r)
    decreases |ns|
  {
    if |ns| > 0 {
      var next := if ns[0] in st.seen then st else Enqueue(directed, st, ns[0]);
      EnqueueBase(adj, directed, ns, st, next);
      if ns[0] !in st.seen {
        EnqueueRanks(adj, directed, st, ns[0], next);
      }
      ScanRanks(adj, directed, ns[1..], next, r);
    }
  }

  lemma EnqueueDiscovered(adj: Adj, directed: bool, st: Sweep, nb: string, e: Sweep)
    requires Base(adj, st) && st.head < |st.seen| && nb !in st.seen && RanksOk(st)
    requires Discovered(adj, directed, st)
    requires nb in adj[st.seen[st.head]] && nb in adj
    requires e == Enqueue(directed, st, nb)
    ensures InKeys(adj, e.seen) && Discovered(adj, directed, e)
  {
    EnqueueRanks(adj, directed, st, nb, e);
    var n := |st.seen|;
    forall k | 1 <= k < |e.seen|
      ensures HasDiscovery(adj, directed, e, k)
    {
      if k == n {
        assert Discovery(adj, directed, e, k, st.head);
      } else {
        assert HasDiscovery(adj, directed, st, k);
        var j :| 0 <= j < k && Discovery(adj, directed, st, k, j);
        assert e.seen[k] == st.seen[k] && e.seen[j] == st.seen[j];
        assert Discovery(adj, directed, e, k, j);
      }
    }
  }

  lemma {:induction false} ScanDiscovered(adj: Adj, directed: bool, ns: seq<string>, st: Sweep, r: Sweep)
    requires Base(adj, st) && st.head < |st.seen| && InKeys(adj, ns) && RanksOk(st)
    requires forall i :: 0 <= i < |ns| ==> ns[i] in adj[st.seen[st.head]]
    requires Discovered(adj, directed, st)
    requires r == Scan(adj, directed, ns, st)
    ensures Discovered(adj, directed, r)
    decreases |ns|
  {
    if |ns| > 0 {
      var next := if ns[0] in st.seen then st else Enqueue(directed, st, ns[0]);
      EnqueueBase(adj, directed, ns, st, next);
      if ns[0] !in st.seen {
        EnqueueRanks(adj, directed, st, ns[0], next);
        EnqueueDiscovered(adj, directed, st, ns[0], next);
      }
      assert next.seen[next.head] == st.seen[st.head];
      ScanDiscovered(adj, directed, ns[1..], next, r);
    }
  }

  // ---------------------------------------------------------------------
  // What the whole loop keeps

  /** One turn of the loop: the search from `st` is the search from the
      state after scanning the head's neighbours and dequeuing it. */
  lemma RunNext(adj: Adj, directed: bool, st: Sweep, s1: Sweep, s2: Sweep, r: Sweep)
    requires Base(adj, st) && Closed(adj) && st.head < |st.seen|
    requires s1 == Scan(adj, directed, adj[st.seen[st.head]], st)
    requires s2 == s1.(head := st.head + 1) && r == Run(adj, directed, st)
    ensures Base(adj, s2) && r == Run(adj, directed, s2)
    ensures |st.seen| <= |s2.seen| <= |adj.Keys| && s2.head == st.head + 1
  {
    DistinctBound(s2.seen, adj.Keys);
  }

  lemma {:induction false} RunExact(adj: Adj, directed: bool, st: Sweep, r: Sweep)
    requires Base(adj, st) && Closed(adj) && Exact(st)
    requires r == Run(adj, directed, st)
    ensures Exact(r)
    decreases |adj.Keys| - |st.seen|, |st.seen| - st.head
  {
    if st.head < |st.seen| {
      var s1 := Scan(adj, directed, adj[st.seen[st.head]], st);
      ScanExact(adj, directed, adj[st.seen[st.head]], st, s1);
      var s2 := s1.(head := s1.head + 1);
      RunNext(adj, directed, st, s1, s2, r);
      RunExact(adj, directed, s2, r);
    }
  }

  lemma {:induction false} RunRooted(adj: Adj, directed: bool, start: string, st: Sweep, r: Sweep)
    requires Base(adj, st) && Closed(adj) && Rooted(start, st)
    requires r == Run(adj, directed, st)
    ensures Rooted(start, r)
    decreases |adj.Keys| - |st.seen|, |st.seen| - st.head
  {
    if st.head < |st.seen| {
      var s1 := Scan(adj, directed, adj[st.seen[st.head]], st);
      ScanOldLevels(adj, directed, adj[st.seen[st.head]], st, s1);
      assert s1.seen[0] == st.seen[0];
      var s2 := s1.(head := s1.head + 1);
      RunNext(adj, directed, st, s1, s2, r);
      RunRooted(adj, directed, start, s2, r);
    }
  }

  lemma {:induction false} RunRanks(adj: Adj, directed: bool, st: Sweep, r: Sweep)
    requires Base(adj, st) && Closed(adj) && RanksOk(st)
    requires r == Run(adj, directed, st)
    ensures RanksOk(r)
    decreases |adj.Keys| - |st.seen|, |st.seen| - st.head
  {
    if st.head < |st.seen| {
      var s1 := Scan(adj, directed, adj[st.seen[st.head]], st);
      ScanRanks(adj, directed, adj[st.seen[st.head]], st, s1);
      var s2 := s1.(head := s1.head + 1);
      RunNext(adj, directed, st, s1, s2, r);
      RunRanks(adj, directed, s2, r);
    }
  }

  /** Levels after one turn of the loop: the next head is no lower than
      the old one, so the last queued node stays within one level of it. */
  lemma LevelsNext(adj: Adj, s1: Sweep, s2: Sweep)
    requires Base(adj, s1) && s1.head < |s1.seen| && LevelsRise(s1)
    requires Frontier(s1, s1.levels[s1.seen[s1.head]])
    requires s2 == s1.(head := s1.head + 1)
    ensures Base(adj, s2) && LevelsRise(s2)
    ensures s2.head < |s2.seen| ==> Frontier(s2, s2.levels[s2.seen[s2.head]])
  {
    if s2.head < |s2.seen| {
      assert s1.levels[s1.seen[s1.head]] <= s1.levels[s1.seen[s2.head]];
    }
  }

  lemma {:induction false} RunLevels(adj: Adj, directed: bool, st: Sweep, r: Sweep)
    requires Base(adj, st) && Closed(adj) && LevelsRise(st)
    requires st.head < |st.seen| ==> Frontier(st, st.levels[st.seen[st.head]])
    requires r == Run(adj, directed, st)
    ensures LevelsRise(r)
    decreases |adj.Keys| - |st.seen|, |st.seen| - st.head
  {
    if st.head < |st.seen| {
      var s1 := Scan(adj, directed, adj[st.seen[st.head]], st);
      ScanLevels(adj, directed, adj[st.seen[st.head]], st, s1);
      var s2 := s1.(head := s1.head + 1);
      LevelsNext(adj, s1, s2);
      RunNext(adj, directed, st, s1, s2, r);
      RunLevels(adj, directed, s2, r);
    }
  }

  /** Discovery edges do not depend on where the head is. */
  lemma DiscoveredNext(adj: Adj, directed: bool, s1: Sweep, s2: Sweep)
    requires InKeys(adj, s1.seen) && Discovered(adj, directed, s1)
    requires s2 == s1.(head := s1.head + 1)
    ensures Discovered(adj, directed, s2)
  {
    forall k | 1 <= k < |s2.seen|
      ensures HasDiscovery(adj, directed, s2, k)
    {
      assert HasDiscovery(adj, directed, s1, k);
      var j :| 0 <= j < k && Discovery(adj, directed, s1, k, j);
      assert Discovery(adj, directed, s2, k, j);
    }
  }

  lemma {:induction false} RunDiscovered(adj: Adj, directed: bool, st: Sweep, r: Sweep)
    requires Base(adj, st) && Closed(adj) && RanksOk(st) && Discovered(adj, directed, st)
    requires r == Run(adj, directed, st)
    ensures Discovered(adj, directed, r)
    decreases |adj.Keys| - |st.seen|, |st.seen| - st.head
  {
    if st.head < |st.seen| {
      var s1 := Scan(adj, directed, adj[st.seen[st.head]], st);
      ScanRanks(adj, directed, adj[st.seen[st.head]], st, s1);
      ScanDiscovered(adj, directed, adj[st.seen[st.head]], st, s1);
      var s2 := s1.(head := s1.head + 1);
      DiscoveredNext(adj, directed, s1, s2);
      RunNext(adj, directed, st, s1, s2, r);
      RunDiscovered(adj, directed, s2, r);
    }
  }

  /** Queueing more nodes keeps the dequeued ones processed. */
  lemma ProcessedGrows(adj: Adj, st: Sweep, s1: Sweep)
    requires Base(adj, st) && Base(adj, s1) && Processed(adj, st)
    requires s1.head == st.head && Grows(st.seen, s1.seen)
    ensures Processed(adj, s1)
  {
    forall k, i | 0 <= k < s1.head && 0 <= i < |adj[s1.seen[k]]|
      ensures adj[s1.seen[k]][i] in s1.seen
    {
      assert s1.seen[k] == st.seen[k];
      var x := adj[st.seen[k]][i];
      var m :| 0 <= m < |st.seen| && st.seen[m] == x;
      assert s1.seen[m] == x;
    }
  }

  /** After one turn of the loop the node just dequeued is processed too. */
  lemma ProcessedNext(adj: Adj, directed: bool, st: Sweep, s1: Sweep, s2: Sweep)
    requires Base(adj, st) && Closed(adj) && st.head < |st.seen| && Processed(adj, st)
    requires s1 == Scan(adj, directed, adj[st.seen[st.head]], st)
    requires s2 == s1.(head := s1.head + 1)
    ensures Processed(adj, s2)
  {
    ProcessedGrows(adj, st, s1);
    assert s1.seen[st.head] == st.seen[st.head];
  }

  lemma {:induction false} RunProcessed(adj: Adj, directed: bool, st: Sweep, r: Sweep)
    requires Base(adj, st) && Closed(adj) && Processed(adj, st)
    requires r == Run(adj, directed, st)
    ensures Processed(adj, r)
    decreases |adj.Keys| - |st.seen|, |st.seen| - st.head
  {
    if st.head < |st.seen| {
      var s1 := Scan(adj, directed, adj[st.seen[st.head]], st);
      var s2 := s1.(head := s1.head + 1);
      ProcessedNext(adj, directed, st, s1, s2);
      RunNext(adj, directed, st, s1, s2, r);
      RunProcessed(adj, directed, s2, r);
    }
  }

  // ---------------------------------------------------------------------
  // What the finished search means

  /** One walk step further than a reachable node is reachable. */
  lemma ReachesOnward(adj: Adj, a: string, b: string, c: string)
    requires Reaches(adj, a, b) && b in adj && c in adj[b]
    ensures Reaches(adj, a, c)
  {
    var p :| IsPath(adj, p) && p[0] == a && p[|p| - 1] == b;
    var q := p + [c];
    assert forall i :: 0 <= i < |p| ==> q[i] == p[i];
    assert IsPath(adj, q);
  }

  /** Following discovery edges back leads to the start, so every queued
      node is reachable from it. */
  lemma {:induction false} DiscoveredReach(adj: Adj, directed: bool, start: string, st: Sweep, k: int)
    requires Base(adj, st) && Rooted(start, st) && Discovered(adj, directed, st)
    requires 0 <= k < |st.seen|
    ensures Reaches(adj, st.seen[k], st.seen[k]) && Reaches(adj, start, st.seen[k])
    decreases k
  {
    ReachesSelf(adj, st.seen[k]);
    if k > 0 {
      assert HasDiscovery(adj, directed, st, k);
      var j :| 0 <= j < k && Discovery(adj, directed, st, k, j);
      DiscoveredReach(adj, directed, start, st, j);
      ReachesOnward(adj, start, st.seen[j], st.seen[k]);
    }
  }

  /** The state `handleBFS` sets up before its loop (lines 334-341). */
  function Initial(start: string): (st: Sweep)
    ensures st.seen == [start] && st.head == 0 && st.ranks == map[]
    ensures st.levels.Keys == {start} && st.levels[start] == 0
  {
    Sweep([start], 0, map[start := 0], map[])
  }

  /** Everything the loop keeps holds of its final state. */
  lemma Started(adj: Adj, directed: bool, start: string, s: Sweep)
    requires Closed(adj) && start in adj
    requires s == Run(adj, directed, Initial(start))
    ensures Base(adj, s) && s.head == |s.seen| && Exact(s) && Rooted(start, s)
    ensures LevelsRise(s) && RanksOk(s) && Discovered(adj, directed, s) && Processed(adj, s)
  {
    var init := Initial(start);
    assert Base(adj, init) && Exact(init) && Rooted(start, init) && LevelsRise(init);
    RunExact(adj, directed, init, s);
    RunRooted(adj, directed, start, init, s);
    RunLevels(adj, directed, init, s);
    RunRanks(adj, directed, init, s);
    RunDiscovered(adj, directed, init, s);
    RunProcessed(adj, directed, init, s);
  }

  /** A finished search has queued exactly the nodes reachable from its
      start. */
  lemma SettledReach(adj: Adj, directed: bool, start: string, s: Sweep)
    requires Closed(adj) && Base(adj, s) && s.head == |s.seen| && Rooted(start, s)
    requires Discovered(adj, directed, s) && Processed(adj, s)
    ensures forall v :: v in s.seen <==> Reaches(adj, start, v)
  {
    forall v
      ensures v in s.seen <==> Reaches(adj, start, v)
    {
      if v in s.seen {
        var k :| 0 <= k < |s.seen| && s.seen[k] == v;
        DiscoveredReach(adj, directed, start, s, k);
      }
      if Reaches(adj, start, v) {
        ClosedHoldsReachable(adj, s.seen, start, v);
      }
    }
  }

  /** What `handleBFS` hands to the animation: the visiting order, the
      level of every visited node and the rank of every discovery edge. */
  datatype Traversal = Traversal(order: seq<string>, levels: map<string, int>, ranks: map<EdgeKey, nat>)

  /** `t.order[k]` was reached along the edge from `t.order[j]`: a
      neighbour one level further out, whose edge is ranked `k`. */
  predicate ReachedAlong(adj: Adj, directed: bool, t: Traversal, k: int, j: int) {
    0 <= j < k < |t.order| && t.order[j] in adj && t.order[k] in adj[t.order[j]] &&
    t.order[j] in t.levels && t.order[k] in t.levels &&
    t.levels[t.order[k]] == t.levels[t.order[j]] + 1 &&
    RankOf(t.ranks, directed, t.order[j], t.order[k]) == Some(k)
  }

  /** `t.order[k]` was reached along an edge from an earlier node. */
  ghost predicate HasParent(adj: Adj, directed: bool, t: Traversal, k: int) {
    exists j :: ReachedAlong(adj, directed, t, k, j)
  }

  /** The discovery edges, read back through the rank lookup. */
  lemma SettledRanks(adj: Adj, directed: bool, s: Sweep, t: Traversal)
    requires Base(adj, s) && Discovered(adj, directed, s)
    requires t == Traversal(s.seen, s.levels, s.ranks)
    ensures forall k :: 1 <= k < |t.order| ==> HasParent(adj, directed, t, k)
  {
    forall k | 1 <= k < |t.order|
      ensures HasParent(adj, directed, t, k)
    {
      assert HasDiscovery(adj, directed, s, k);
      var j :| 0 <= j < k && Discovery(adj, directed, s, k, j);
      assert ReachedAlong(adj, directed, t, k, j);
    }
  }

  /** Breadth-first search from `start`: it visits exactly the nodes
      reachable from `start`, each once, in non-decreasing level; each node
      after the first was discovered along an edge from an earlier node one
      level closer, and that edge carries the node's position as its rank. */
  function BreadthFirst(adj: Adj, directed: bool, start: string): (r: Traversal)
    requires Closed(adj) && start in adj
    ensures |r.order| > 0 && r.order[0] == start && Distinct(r.order)
    ensures forall v :: v in r.order <==> Reaches(adj, start, v)
    ensures forall v :: v in r.levels <==> v in r.order
    ensures start in r.levels && r.levels[start] == 0
    ensures forall i, j :: 0 <= i < j < |r.order| ==> r.order[i] in r.levels && r.order[j] in r.levels && r.levels[r.order[i]] <= r.levels[r.order[j]]
    ensures forall k :: 1 <= k < |r.order| ==> HasParent(adj, directed, r, k)
    ensures forall key :: key in r.ranks ==> 1 <= r.ranks[key] < |r.order|
    ensures forall a, b :: a in r.ranks && b in r.ranks && a != b ==> r.ranks[a] != r.ranks[b]
  {
    var s := Run(adj, directed, Initial(start));
    Started(adj, directed, start, s);
    SettledReach(adj, directed, start, s);
    var t := Traversal(s.seen, s.levels, s.ranks);
    SettledRanks(adj, directed, s, t);
    t
  }

  /** The outcome of clicking "BFS". */
  datatype Outcome = NeedStart | Throws | Found(t: Traversal)

  /** `handleBFS` (lines 326-358): refuse an empty start selection; a start
      selection that no longer names a node makes the loop over
      `adjList[start]` throw. */
  function HandleBfs(nodes: seq<string>, edges: seq<Edge>, directed: bool, start: string): (r: Outcome)
    requires NodesOk(nodes) && EndsOk(nodes, edges)
    ensures start == "" <==> r == Outcome.NeedStart
    ensures r.Throws? <==> start != "" && start !in nodes
    ensures r.Found? ==> BuildAdj(nodes, edges, directed).Some?
    ensures r.Found? ==> |r.t.order| > 0 && r.t.order[0] == start && Distinct(r.t.order)
    ensures r.Found? ==> (forall v :: v in r.t.order <==> Reaches(BuildAdj(nodes, edges, directed).value, start, v))
    ensures r.Found? ==> (forall v :: v in r.t.levels <==> v in r.t.order)
  {
    if start == "" then Outcome.NeedStart
    else
      BuildAdjOnValidGraph(nodes, edges, directed);
      var adj := BuildAdj(nodes, edges, directed).value;
      if start !in adj then Outcome.Throws else Found(BreadthFirst(adj, directed, start))
  }
}
