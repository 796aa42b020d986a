/** Top-down merge sort on copies of the array: each merge emits only the
    merged subarray as its snapshot. */
module MergeSort {
  import opened SortCommon

  /** The merge loop (ArrayVisualizer.jsx, lines 126-136) from positions
      `i` and `j`: the left head is taken only when strictly smaller, so on
      equal heads the right one goes first; whatever remains of either side
      is appended once one is exhausted. */
  function MergeFrom(l: seq<int>, r: seq<int>, i: nat, j: nat): (m: seq<int>)
    requires i <= |l| && j <= |r|
    ensures |m| == |l| - i + |r| - j
    ensures multiset(m) == multiset(l[i..]) + multiset(r[j..])
    decreases |l| - i + |r| - j
  {
    if i < |l| && j < |r| then
      assert l[i..] == [l[i]] + l[i + 1..];
      assert r[j..] == [r[j]] + r[j + 1..];
      if l[i] < r[j] then [l[i]] + MergeFrom(l, r, i + 1, j)
      else [r[j]] + MergeFrom(l, r, i, j + 1)
    else l[i..] + r[j..]
  }

  /** `merge(left, right)`: the two inputs interleaved into one sequence. */
  function Merge(l: seq<int>, r: seq<int>): (m: seq<int>)
    ensures |m| == |l| + |r|
    ensures multiset(m) == multiset(l) + multiset(r)
  {
    assert l[0..] == l && r[0..] == r;
    MergeFrom(l, r, 0, 0)
  }

  /** A bound below both remainders bounds the merged output. */
  lemma MergeFromAbove(l: seq<int>, r: seq<int>, i: nat, j: nat, x: int)
    requires i <= |l| && j <= |r|
    requires forall k :: i <= k < |l| ==> x <= l[k]
    requires forall k :: j <= k < |r| ==> x <= r[k]
    ensures forall k :: 0 <= k < |MergeFrom(l, r, i, j)| ==> x <= MergeFrom(l, r, i, j)[k]
  {
    var m := MergeFrom(l, r, i, j);
    forall k | 0 <= k < |m|
      ensures x <= m[k]
    {
      assert m[k] in multiset(m);
      if m[k] in multiset(l[i..]) {
        var p :| 0 <= p < |l[i..]| && l[i..][p] == m[k];
        assert l[i + p] == m[k];
      } else {
        assert m[k] in multiset(r[j..]);
        var p :| 0 <= p < |r[j..]| && r[j..][p] == m[k];
        assert r[j + p] == m[k];
      }
    }
  }

  lemma {:induction false} MergeFromSorted(l: seq<int>, r: seq<int>, i: nat, j: nat)
    requires i <= |l| && j <= |r| && Sorted(l) && Sorted(r)
    ensures Sorted(MergeFrom(l, r, i, j))
    decreases |l| - i + |r| - j
  {
    if i < |l| && j < |r| {
      if l[i] < r[j] {
        MergeFromSorted(l, r, i + 1, j);
        MergeFromAbove(l, r, i + 1, j, l[i]);
      } else {
        MergeFromSorted(l, r, i, j + 1);
        MergeFromAbove(l, r, i, j + 1, r[j]);
      }
    }
  }

  /** Merging two ascending sequences yields an ascending sequence. */
  lemma MergeSorted(l: seq<int>, r: seq<int>)
    requires Sorted(l) && Sorted(r)
    ensures Sorted(Merge(l, r))
  {
    MergeFromSorted(l, r, 0, 0);
  }

  /** `sort(arr)` (lines 138-146): split at the floor of the midpoint, sort
      both halves, merge, and emit the merged subarray. One snapshot per
      merge, so `n - 1` of them for `n >= 1` elements; the last one is the
      result. */
  function Sort(s: seq<int>): (r: Run)
    ensures Sorted(r.final) && multiset(r.final) == multiset(s)
    ensures |r.snaps| == if |s| == 0 then 0 else |s| - 1
    ensures LastOr(s, r.snaps) == r.final
    decreases |s|
  {
    if |s| <= 1 then Run(s, [])
    else
      var mid := |s| / 2;
      assert s == s[..mid] + s[mid..];
      var left := Sort(s[..mid]);
      var right := Sort(s[mid..]);
      MergeSorted(left.final, right.final);
      var merged := Merge(left.final, right.final);
      Run(merged, left.snaps + right.snaps + [merged])
  }

  /** `t` holds the values of some stretch of at least two elements of `s`. */
  ghost predicate FromSlice(s: seq<int>, t: seq<int>) {
    exists lo, hi {:trigger s[lo..hi]} :: 0 <= lo && lo + 2 <= hi <= |s| && multiset(t) == multiset(s[lo..hi])
  }

  lemma SliceOfLeft(s: seq<int>, mid: nat, t: seq<int>)
    requires mid <= |s| && FromSlice(s[..mid], t)
    ensures FromSlice(s, t)
  {
    var lo, hi :| 0 <= lo && lo + 2 <= hi <= mid && multiset(t) == multiset(s[..mid][lo..hi]);
    assert s[..mid][lo..hi] == s[lo..hi];
  }

  lemma SliceOfRight(s: seq<int>, mid: nat, t: seq<int>)
    requires mid <= |s| && FromSlice(s[mid..], t)
    ensures FromSlice(s, t)
  {
    var lo, hi :| 0 <= lo && lo + 2 <= hi <= |s| - mid && multiset(t) == multiset(s[mid..][lo..hi]);
    assert s[mid..][lo..hi] == s[mid + lo..mid + hi];
  }

  /** A snapshot the view may show for input `s`: ascending, and the
      values of one stretch of `s`. */
  ghost predicate SortedSlice(s: seq<int>, t: seq<int>) {
    Sorted(t) && FromSlice(s, t)
  }

  /** Every snapshot in `snaps` is a `SortedSlice` of `s`. (Stated
      recursively, like `AllPerms`; `SortedSlicesAt` gives the quantified
      reading.) */
  ghost predicate SortedSlices(s: seq<int>, snaps: seq<seq<int>>)
    decreases |snaps|
  {
    |snaps| == 0 || (SortedSlice(s, snaps[0]) && SortedSlices(s, snaps[1..]))
  }

  lemma {:induction false} SortedSlicesAt(s: seq<int>, snaps: seq<seq<int>>)
    requires SortedSlices(s, snaps)
    ensures forall k :: 0 <= k < |snaps| ==> SortedSlice(s, snaps[k])
    decreases |snaps|
  {
    if |snaps| > 0 {
      SortedSlicesAt(s, snaps[1..]);
      assert forall k :: 1 <= k < |snaps| ==> snaps[k] == snaps[1..][k - 1];
    }
  }

  lemma {:induction false} SortedSlicesAppend(s: seq<int>, a: seq<seq<int>>, b: seq<seq<int>>)
    requires SortedSlices(s, a) && SortedSlices(s, b)
    ensures SortedSlices(s, a + b)
    decreases |a|
  {
    if |a| > 0 {
      assert (a + b)[1..] == a[1..] + b;
      SortedSlicesAppend(s, a[1..], b);
    } else {
      assert a + b == b;
    }
  }

  /** Snapshots of the left half are snapshots of the whole. */
  lemma {:induction false} SortedSlicesOfLeft(s: seq<int>, mid: nat, snaps: seq<seq<int>>)
    requires mid <= |s| && SortedSlices(s[..mid], snaps)
    ensures SortedSlices(s, snaps)
    decreases |snaps|
  {
    if |snaps| > 0 {
      SliceOfLeft(s, mid, snaps[0]);
      SortedSlicesOfLeft(s, mid, snaps[1..]);
    }
  }

  /** Snapshots of the right half are snapshots of the whole. */
  lemma {:induction false} SortedSlicesOfRight(s: seq<int>, mid: nat, snaps: seq<seq<int>>)
    requires mid <= |s| && SortedSlices(s[mid..], snaps)
    ensures SortedSlices(s, snaps)
    decreases |snaps|
  {
    if |snaps| > 0 {
      SliceOfRight(s, mid, snaps[0]);
      SortedSlicesOfRight(s, mid, snaps[1..]);
    }
  }

  /** One split of `Sort`: the halves' runs, then the merge. */
  lemma SortNext(s: seq<int>, left: Run, right: Run, merged: seq<int>)
    requires |s| > 1 && left == Sort(s[..|s| / 2]) && right == Sort(s[|s| / 2..])
    requires merged == Merge(left.final, right.final)
    ensures Sort(s) == Run(merged, left.snaps + right.snaps + [merged])
  {
  }

  /** The final merge of a sort of at least two values is a snapshot of
      the whole input. */
  lemma WholeSlice(s: seq<int>, merged: seq<int>)
    requires |s| >= 2 && Sorted(merged) && multiset(merged) == multiset(s)
    ensures SortedSlices(s, [merged])
  {
    assert s[0..|s|] == s;
    assert FromSlice(s, merged);
    assert [merged][1..] == [];
  }

  /** The halves' snapshots followed by the merge of the whole are
      snapshots of the whole. */
  lemma SortedSlicesJoin(s: seq<int>, mid: nat, ls: seq<seq<int>>, rs: seq<seq<int>>, merged: seq<int>)
    requires 0 < mid < |s| && SortedSlices(s[..mid], ls) && SortedSlices(s[mid..], rs)
    requires Sorted(merged) && multiset(merged) == multiset(s)
    ensures SortedSlices(s, ls + rs + [merged])
  {
    SortedSlicesOfLeft(s, mid, ls);
    SortedSlicesOfRight(s, mid, rs);
    WholeSlice(s, merged);
    SortedSlicesAppend(s, ls, rs);
    SortedSlicesAppend(s, ls + rs, [merged]);
  }

  /** One split of `Sort` keeps `SortedSlices`. */
  lemma SortSlicesNext(s: seq<int>, left: Run, right: Run)
    requires |s| > 1 && left == Sort(s[..|s| / 2]) && right == Sort(s[|s| / 2..])
    requires SortedSlices(s[..|s| / 2], left.snaps) && SortedSlices(s[|s| / 2..], right.snaps)
    ensures SortedSlices(s, Sort(s).snaps)
  {
    var merged := Merge(left.final, right.final);
    SortNext(s, left, right, merged);
    SortedSlicesJoin(s, |s| / 2, left.snaps, right.snaps, merged);
  }

  /** The snapshots of `Sort(s)` are all `SortedSlice`s of `s`. */
  lemma {:induction false} SortSlices(s: seq<int>)
    ensures SortedSlices(s, Sort(s).snaps)
    decreases |s|
  {
    if |s| > 1 {
      SortSlices(s[..|s| / 2]);
      SortSlices(s[|s| / 2..]);
      SortSlicesNext(s, Sort(s[..|s| / 2]), Sort(s[|s| / 2..]));
    }
  }

  /** Every snapshot is ascending and holds exactly the values of one
      stretch of the input: the view shows a sorted subarray, never the
      whole array in progress. */
  lemma SortSnapshots(s: seq<int>)
    ensures forall k :: 0 <= k < |Sort(s).snaps| ==> SortedSlice(s, Sort(s).snaps[k])
  {
    SortSlices(s);
    SortedSlicesAt(s, Sort(s).snaps);
  }
}
