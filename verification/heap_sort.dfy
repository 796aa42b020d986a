/** Heap sort on an implicit binary max-heap (children of `i` at `2i+1` and
    `2i+2`): build the heap bottom-up, then repeatedly exchange the root
    to the end and sift the new root down. Every exchange emits a snapshot
    of the whole array. */
module HeapSort {
  import opened SortCommon

  /** Node `k` lies in the subtree rooted at node `i`. */
  predicate InSubtree(i: nat, k: nat)
    decreases k
  {
    k == i || (k > i && InSubtree(i, (k - 1) / 2))
  }

  lemma {:induction false} SubtreeBelowRoot(i: nat, k: nat)
    requires k < i
    ensures !InSubtree(i, k)
  {
  }

  /** The subtree of a child lies inside the subtree of its parent. */
  lemma {:induction false} SubtreeOfChild(i: nat, c: nat, k: nat)
    requires c == 2 * i + 1 || c == 2 * i + 2
    requires InSubtree(c, k)
    ensures InSubtree(i, k)
    decreases k
  {
    if k != c {
      SubtreeOfChild(i, c, (k - 1) / 2);
    }
  }

  /** Node `k` is at least each of its children inside the first `n` slots. */
  predicate HeapAt(s: seq<int>, n: int, k: int)
    requires 0 <= k && n <= |s|
  {
    (2 * k + 1 < n ==> s[k] >= s[2 * k + 1]) && (2 * k + 2 < n ==> s[k] >= s[2 * k + 2])
  }

  /** `v` is the value of node `i` or of one of its children in `s[..n]`. */
  predicate FromFamily(s: seq<int>, n: int, i: int, v: int)
    requires 0 <= i < n <= |s|
  {
    v == s[i] || (2 * i + 1 < n && v == s[2 * i + 1]) || (2 * i + 2 < n && v == s[2 * i + 2])
  }

  /** Every node from `i` on satisfies the max-heap order in `s[..n]`. */
  predicate HeapFrom(s: seq<int>, n: int, i: int)
    requires 0 <= i && n <= |s|
  {
    forall k :: i <= k < n ==> HeapAt(s, n, k)
  }

  /** The second half of any array trivially satisfies the heap order. */
  lemma LeavesAreHeaps(s: seq<int>)
    ensures HeapFrom(s, |s|, |s| / 2)
  {
  }

  /** Along the parent chain from `k`, values never decrease. */
  lemma {:induction false} RootIsMax(s: seq<int>, n: int, k: int)
    requires 0 <= k < n <= |s| && HeapFrom(s, n, 0)
    ensures s[0] >= s[k]
    decreases k
  {
    if k > 0 {
      var p := (k - 1) / 2;
      assert HeapAt(s, n, p);
      RootIsMax(s, n, p);
    }
  }

  /** Exchanging `i` with its child `m` and sifting below `m` changes only
      `i`'s subtree. */
  lemma HeapifyFrame(s: seq<int>, n: int, i: int, m: int, t: seq<int>, f: seq<int>)
    requires 0 <= i < m < n <= |s| && (m == 2 * i + 1 || m == 2 * i + 2)
    requires t == Swap(s, i, m) && |f| == |s|
    requires forall k :: 0 <= k < |s| && (k >= n || !InSubtree(m, k)) ==> f[k] == t[k]
    ensures forall k :: 0 <= k < |s| && (k >= n || !InSubtree(i, k)) ==> f[k] == s[k]
  {
    assert InSubtree(i, m);
    forall k | 0 <= k < |s| && (k >= n || !InSubtree(i, k))
      ensures f[k] == s[k]
    {
      if k < n && InSubtree(m, k) {
        SubtreeOfChild(i, m, k);
      }
    }
  }

  /** Exchanging `i` with its child `m` leaves the nodes after `m` as they
      were, so their heap order survives. */
  lemma {:induction false} SwapKeepsLaterHeaps(s: seq<int>, n: int, i: int, m: int, t: seq<int>)
    requires 0 <= i < m < n <= |s| && (m == 2 * i + 1 || m == 2 * i + 2)
    requires t == Swap(s, i, m)
    requires HeapFrom(s, n, i + 1)
    ensures HeapFrom(t, n, m + 1)
  {
    forall k | m + 1 <= k < n
      ensures HeapAt(t, n, k)
    {
      assert HeapAt(s, n, k);
    }
  }

  /** After the exchange the larger child's value sits at `i`, above both
      of `i`'s final children. */
  lemma {:induction false} RootOrdered(s: seq<int>, n: int, i: int, m: int, t: seq<int>, f: seq<int>)
    requires 0 <= i < m < n <= |s| && (m == 2 * i + 1 || m == 2 * i + 2)
    requires s[m] > s[i]
    requires 2 * i + 1 < n ==> s[m] >= s[2 * i + 1]
    requires 2 * i + 2 < n ==> s[m] >= s[2 * i + 2]
    requires t == Swap(s, i, m) && |f| == |s|
    requires forall k :: 0 <= k < |s| && (k >= n || !InSubtree(m, k)) ==> f[k] == t[k]
    requires FromFamily(t, n, m, f[m])
    requires HeapAt(s, n, m)
    ensures HeapAt(f, n, i)
  {
    SubtreeBelowRoot(m, i);
    assert f[i] == s[m];
    var o := if m == 2 * i + 1 then 2 * i + 2 else 2 * i + 1;
    if o < n {
      assert !InSubtree(m, o);
      assert f[o] == s[o];
    }
  }

  /** Nodes strictly between `i` and `m` keep their values and those of
      their children, so they stay ordered. */
  lemma {:induction false} MiddleOrdered(s: seq<int>, n: int, i: int, m: int, t: seq<int>, f: seq<int>, k: int)
    requires 0 <= i < k < m < n <= |s| && (m == 2 * i + 1 || m == 2 * i + 2)
    requires t == Swap(s, i, m) && |f| == |s|
    requires forall j :: 0 <= j < |s| && (j >= n || !InSubtree(m, j)) ==> f[j] == t[j]
    requires HeapAt(s, n, k)
    ensures HeapAt(f, n, k)
  {
    SubtreeBelowRoot(m, k);
    assert !InSubtree(m, 2 * k + 1) && !InSubtree(m, 2 * k + 2);
  }

  /** The same exchange restores the heap order at `i` when the subtrees
      below were heaps, given that sifting below `m` restored it there. */
  lemma {:induction false} HeapifyOrder(s: seq<int>, n: int, i: int, m: int, t: seq<int>, f: seq<int>)
    requires 0 <= i < m < n <= |s| && (m == 2 * i + 1 || m == 2 * i + 2)
    requires s[m] > s[i]
    requires 2 * i + 1 < n ==> s[m] >= s[2 * i + 1]
    requires 2 * i + 2 < n ==> s[m] >= s[2 * i + 2]
    requires t == Swap(s, i, m) && |f| == |s|
    requires forall k :: 0 <= k < |s| && (k >= n || !InSubtree(m, k)) ==> f[k] == t[k]
    requires HeapFrom(t, n, m + 1) ==> HeapFrom(f, n, m)
    requires FromFamily(t, n, m, f[m])
    requires HeapFrom(s, n, i + 1)
    ensures HeapFrom(f, n, i)
  {
    SwapKeepsLaterHeaps(s, n, i, m, t);
    assert HeapAt(s, n, m);
    RootOrdered(s, n, i, m, t, f);
    forall k | i < k < m
      ensures HeapAt(f, n, k)
    {
      assert HeapAt(s, n, k);
      MiddleOrdered(s, n, i, m, t, f, k);
    }
  }

  /** The larger child has been exchanged to `i` and sifted down as `rest`:
      the guarantees of `Heapify` carry over from `rest` to the whole call. */
  lemma HeapifyStep(s: seq<int>, n: int, i: int, m: int, t: seq<int>, rest: Run)
    requires 0 <= i < m < n <= |s| && (m == 2 * i + 1 || m == 2 * i + 2)
    requires s[m] > s[i]
    requires 2 * i + 1 < n ==> s[m] >= s[2 * i + 1]
    requires 2 * i + 2 < n ==> s[m] >= s[2 * i + 2]
    requires t == Swap(s, i, m)
    requires |rest.final| == |s| && multiset(rest.final) == multiset(t)
    requires AllPerms(rest.snaps, multiset(t)) && LastOr(t, rest.snaps) == rest.final
    requires forall k :: 0 <= k < |s| && (k >= n || !InSubtree(m, k)) ==> rest.final[k] == t[k]
    requires HeapFrom(t, n, m + 1) ==> HeapFrom(rest.final, n, m)
    requires FromFamily(t, n, m, rest.final[m])
    ensures multiset(rest.final) == multiset(s)
    ensures AllPerms([t] + rest.snaps, multiset(s)) && LastOr(s, [t] + rest.snaps) == rest.final
    ensures forall k :: 0 <= k < |s| && (k >= n || !InSubtree(i, k)) ==> rest.final[k] == s[k]
    ensures HeapFrom(s, n, i + 1) ==> HeapFrom(rest.final, n, i)
    ensures FromFamily(s, n, i, rest.final[i])
  {
    SwapPerm(s, i, m);
    LastOrAppend(s, [t], rest.snaps);
    assert ([t] + rest.snaps)[1..] == rest.snaps;
    HeapifyFrame(s, n, i, m, t, rest.final);
    SubtreeBelowRoot(m, i);
    if HeapFrom(s, n, i + 1) {
      HeapifyOrder(s, n, i, m, t, rest.final);
    }
  }

  /** `heapify(arr, n, i)` (ArrayVisualizer.jsx, lines 187-200): sift the
      value at `i` down within the first `n` slots, exchanging it with the
      larger child (the left one on ties) while that child is strictly
      larger, one snapshot per exchange. Only the subtree of `i` inside the
      first `n` slots changes; if both subtrees of `i` were heaps, `i`'s
      subtree is one afterwards; the value left at `i` is the original
      value or one of its children. */
  function Heapify(s: seq<int>, n: int, i: int): (r: Run)
    requires 0 <= i < n <= |s|
    ensures |r.final| == |s| && multiset(r.final) == multiset(s)
    ensures AllPerms(r.snaps, multiset(s)) && LastOr(s, r.snaps) == r.final
    ensures forall k :: 0 <= k < |s| && (k >= n || !InSubtree(i, k)) ==> r.final[k] == s[k]
    ensures HeapFrom(s, n, i + 1) ==> HeapFrom(r.final, n, i)
    ensures FromFamily(s, n, i, r.final[i])
    decreases n - i
  {
    var l := 2 * i + 1;
    var rt := 2 * i + 2;
    var m1 := if l < n && s[l] > s[i] then l else i;
    var m := if rt < n && s[rt] > s[m1] then rt else m1;
    if m == i then
      Run(s, [])
    else
      var t := Swap(s, i, m);
      var rest := Heapify(t, n, m);
      HeapifyStep(s, n, i, m, t, rest);
      Run(rest.final, [t] + rest.snaps)
  }

  /** The build loop (lines 202-204) from node `i` down to the root. */
  function Build(s: seq<int>, i: int): (r: Run)
    requires -1 <= i < |s|
    ensures |r.final| == |s| && multiset(r.final) == multiset(s)
    ensures AllPerms(r.snaps, multiset(s)) && LastOr(s, r.snaps) == r.final
    ensures HeapFrom(s, |s|, i + 1) ==> HeapFrom(r.final, |s|, 0)
    decreases i + 1
  {
    if i < 0 then Run(s, [])
    else
      var h := Heapify(s, |s|, i);
      var rest := Build(h.final, i - 1);
      LastOrAppend(s, h.snaps, rest.snaps);
      AllPermsAppend(h.snaps, rest.snaps, multiset(s));
      Run(rest.final, h.snaps + rest.snaps)
  }

  /** Before extraction round `i`: the first `i + 1` slots form a max-heap,
      and the slots after them hold the largest values, ascending. */
  predicate Ready(s: seq<int>, i: int) {
    0 <= i + 1 <= |s| && HeapFrom(s, i + 1, 0) && SortedRange(s, i + 1, |s|) && Split(s, i + 1)
  }

  /** With at most one slot left in the heap, the array is sorted. */
  lemma ReadyDone(s: seq<int>, i: int)
    requires i <= 0
    ensures Ready(s, i) ==> Sorted(s)
  {
    if Ready(s, i) {
      assert SortedRange(s, 0, |s|);
      SortedRangeWhole(s);
    }
  }

  /** One extraction round keeps `Ready` with one slot fewer. */
  lemma ExtractStep(s: seq<int>, i: int, t: seq<int>, h: Run)
    requires 1 <= i < |s| && t == Swap(s, 0, i)
    requires |h.final| == |s| && multiset(h.final) == multiset(t)
    requires forall k :: 0 <= k < |s| && (k >= i || !InSubtree(0, k)) ==> h.final[k] == t[k]
    requires HeapFrom(t, i, 1) ==> HeapFrom(h.final, i, 0)
    ensures Ready(s, i) ==> Ready(h.final, i - 1)
  {
    if Ready(s, i) {
      ReadyStep(s, i, t, h);
    }
  }

  /** One extraction round keeps `Ready` one slot lower: the root, the
      largest of the heap, moves to slot `i`, and sifting the new root down
      restores the heap on the first `i` slots. */
  lemma ReadyStep(s: seq<int>, i: int, t: seq<int>, h: Run)
    requires 1 <= i < |s| && Ready(s, i) && t == Swap(s, 0, i)
    requires |h.final| == |s| && multiset(h.final) == multiset(t)
    requires forall k :: 0 <= k < |s| && (k >= i || !InSubtree(0, k)) ==> h.final[k] == t[k]
    requires HeapFrom(t, i, 1) ==> HeapFrom(h.final, i, 0)
    ensures Ready(h.final, i - 1)
  {
    var f := h.final;
    assert HeapFrom(t, i, 1) by {
      forall k | 1 <= k < i
        ensures HeapAt(t, i, k)
      {
        assert HeapAt(s, i + 1, k);
      }
    }
    assert forall k :: 0 <= k <= i ==> s[0] >= s[k] by {
      forall k | 0 <= k <= i
        ensures s[0] >= s[k]
      {
        RootIsMax(s, i + 1, k);
      }
    }
    assert Split(t, i) by {
      forall a, b | 0 <= a < i <= b < |t|
        ensures t[a] <= t[b]
      {
        if a == 0 {
          assert t[a] == s[i];
        } else {
          assert t[a] == s[a];
        }
        if b > i {
          assert t[b] == s[b];
        }
      }
    }
    assert f[i..] == t[i..];
    PrefixPerm(f, t, i);
    SplitPerm(t, f, i);
    assert SortedRange(f, i, |f|) by {
      forall a, b | i <= a < b < |f|
        ensures f[a] <= f[b]
      {
        assert f[a] == t[a] && f[b] == t[b] == s[b];
        if a > i {
          assert t[a] == s[a];
        }
      }
    }
  }

  /** The extraction loop (lines 206-210) from `i` down to 1: exchange the
      root with slot `i` (one snapshot), then sift the new root down
      within the first `i` slots. */
  function Extract(s: seq<int>, i: int): (r: Run)
    requires -1 <= i < |s|
    ensures |r.final| == |s| && multiset(r.final) == multiset(s)
    ensures AllPerms(r.snaps, multiset(s)) && LastOr(s, r.snaps) == r.final
    ensures Ready(s, i) ==> Sorted(r.final)
    decreases i
  {
    if i <= 0 then
      ReadyDone(s, i);
      Run(s, [])
    else
      var t := Swap(s, 0, i);
      var h := Heapify(t, i, 0);
      var rest := Extract(h.final, i - 1);
      SwapPerm(s, 0, i);
      ExtractStep(s, i, t, h);
      LastOrAppend(s, [t], h.snaps);
      LastOrAppend(s, [t] + h.snaps, rest.snaps);
      assert AllPerms([t], multiset(s));
      AllPermsAppend([t], h.snaps, multiset(s));
      AllPermsAppend([t] + h.snaps, rest.snaps, multiset(s));
      Run(rest.final, [t] + h.snaps + rest.snaps)
  }

  /** In a max-heap the root is the largest value. */
  lemma RootIsLargest(s: seq<int>)
    requires HeapFrom(s, |s|, 0)
    ensures forall k :: 0 <= k < |s| ==> s[0] >= s[k]
  {
    forall k | 0 <= k < |s|
      ensures s[0] >= s[k]
    {
      RootIsMax(s, |s|, k);
    }
  }

  /** The build phase leaves a max-heap holding the input's values, so its
      first slot holds the largest value. */
  function BuildHeap(a: seq<int>): (r: Run)
    ensures |r.final| == |a| && multiset(r.final) == multiset(a)
    ensures HeapFrom(r.final, |a|, 0)
    ensures forall k :: 0 <= k < |r.final| ==> r.final[0] >= r.final[k]
  {
    LeavesAreHeaps(a);
    var r := Build(a, |a| / 2 - 1);
    RootIsLargest(r.final);
    r
  }

  /** `heapSort` (lines 182-215) on a copy of the array: every snapshot is
      a rearrangement of the input, and the final array is the input
      sorted. */
  function Heap(a: seq<int>): (r: Run)
    ensures Sorted(r.final) && multiset(r.final) == multiset(a)
    ensures forall k :: 0 <= k < |r.snaps| ==> multiset(r.snaps[k]) == multiset(a)
    ensures LastOr(a, r.snaps) == r.final
  {
    var b := BuildHeap(a);
    var e := Extract(b.final, |a| - 1);
    assert Ready(b.final, |a| - 1);
    LeavesAreHeaps(a);
    LastOrAppend(a, b.snaps, e.snaps);
    AllPermsAppend(b.snaps, e.snaps, multiset(a));
    AllPermsAt(b.snaps + e.snaps, multiset(a));
    Run(e.final, b.snaps + e.snaps)
  }
}
