/** Selection sort: each pass finds the first minimum of the unsorted
    suffix and exchanges it into place, emitting one snapshot per pass. */
module SelectionSort {
  import opened SortCommon

  /** The inner loop (ArrayVisualizer.jsx, lines 112-114): scanning from
      `j` with the running minimum at `m`, with strict `<` so that the first
      of equal minima is kept. */
  function MinIndex(s: seq<int>, j: nat, m: nat): (r: nat)
    requires m < j <= |s|
    ensures r == m || j <= r < |s|
    ensures s[r] <= s[m] && forall k :: j <= k < |s| ==> s[r] <= s[k]
    ensures r == m || s[r] < s[m]
    ensures forall k :: j <= k < r ==> s[r] < s[k]
    decreases |s| - j
  {
    if j == |s| then m
    else MinIndex(s, j + 1, if s[j] < s[m] then j else m)
  }

  /** The outer loop (lines 110-117) from pass `i`: the exchange at line
      115 and its snapshot happen even when the minimum is already at `i`. */
  function Passes(s: seq<int>, i: nat): (r: Run)
    requires i <= |s|
    ensures |r.final| == |s| && |r.snaps| == |s| - i
    ensures LastOr(s, r.snaps) == r.final
    decreases |s| - i
  {
    if i == |s| then Run(s, [])
    else
      var t := Swap(s, i, MinIndex(s, i + 1, i));
      var rest := Passes(t, i + 1);
      LastOrAppend(s, [t], rest.snaps);
      Run(rest.final, [t] + rest.snaps)
  }

  /** After `i` passes: the first `i` positions hold the `i` smallest
      values, ascending. */
  predicate Selected(s: seq<int>, i: nat) {
    i <= |s| && SortedRange(s, 0, i) && Split(s, i)
  }

  /** Exchanging the suffix minimum into position `i` moves the boundary
      between small and large values one place right. */
  lemma SwapSplits(s: seq<int>, i: nat, m: nat, t: seq<int>)
    requires i <= m < |s| && Split(s, i) && t == Swap(s, i, m)
    requires forall k :: i <= k < |s| ==> s[m] <= s[k]
    ensures Split(t, i + 1)
  {
    forall a, b | 0 <= a < i + 1 <= b < |s|
      ensures t[a] <= t[b]
    {
      if b == m {
        assert t[b] == s[i];
      } else {
        assert t[b] == s[b];
      }
    }
  }

  /** The suffix minimum placed after the sorted prefix keeps it sorted. */
  lemma SwapExtendsSorted(s: seq<int>, i: nat, m: nat, t: seq<int>)
    requires i <= m < |s| && SortedRange(s, 0, i) && Split(s, i) && t == Swap(s, i, m)
    ensures SortedRange(t, 0, i + 1)
  {
    forall a, b | 0 <= a < b < i + 1
      ensures t[a] <= t[b]
    {
      assert t[a] == s[a];
      if b == i {
        assert t[b] == s[m];
      } else {
        assert t[b] == s[b];
      }
    }
  }

  /** One pass extends the selected prefix by one and only rearranges values. */
  lemma PassSelects(s: seq<int>, i: nat)
    requires Selected(s, i) && i < |s|
    ensures Selected(Swap(s, i, MinIndex(s, i + 1, i)), i + 1)
    ensures multiset(Swap(s, i, MinIndex(s, i + 1, i))) == multiset(s)
  {
    var m := MinIndex(s, i + 1, i);
    var t := Swap(s, i, m);
    SwapPerm(s, i, m);
    SwapSplits(s, i, m, t);
    SwapExtendsSorted(s, i, m, t);
  }

  /** Every snapshot of the remaining passes is a rearrangement of `s`, and
      the `k`-th of them has the first `i + k + 1` positions selected. */
  predicate SnapshotsSelect(s: seq<int>, i: nat, snaps: seq<seq<int>>) {
    forall k :: 0 <= k < |snaps| ==>
      |snaps[k]| == |s| && multiset(snaps[k]) == multiset(s) && Selected(snaps[k], i + k + 1)
  }

  /** One turn of the outer loop: what the rest of the passes guarantee
      for the exchanged array carries over to the whole loop from `i`. */
  lemma PassesSelectNext(s: seq<int>, i: nat, t: seq<int>, rest: Run)
    requires Selected(s, i) && i < |s|
    requires t == Swap(s, i, MinIndex(s, i + 1, i)) && rest == Passes(t, i + 1)
    requires Selected(t, i + 1) ==>
      Sorted(rest.final) && multiset(rest.final) == multiset(t) && SnapshotsSelect(t, i + 1, rest.snaps)
    ensures Sorted(Passes(s, i).final) && multiset(Passes(s, i).final) == multiset(s)
    ensures SnapshotsSelect(s, i, Passes(s, i).snaps)
  {
    PassSelects(s, i);
    var snaps := [t] + rest.snaps;
    assert Passes(s, i).snaps == snaps;
    forall k | 0 <= k < |snaps|
      ensures |snaps[k]| == |s| && multiset(snaps[k]) == multiset(s) && Selected(snaps[k], i + k + 1)
    {
      if k > 0 {
        assert snaps[k] == rest.snaps[k - 1];
      }
    }
  }

  /** From a selected prefix of length `i`, the remaining passes sort the
      array, keep its values, and select one more position per snapshot. */
  lemma {:induction false} PassesSelect(s: seq<int>, i: nat)
    requires Selected(s, i)
    ensures Sorted(Passes(s, i).final) && multiset(Passes(s, i).final) == multiset(s)
    ensures SnapshotsSelect(s, i, Passes(s, i).snaps)
    decreases |s| - i
  {
    if i == |s| {
      SortedRangeWhole(s);
    } else {
      var t := Swap(s, i, MinIndex(s, i + 1, i));
      PassSelects(s, i);
      PassesSelect(t, i + 1);
      PassesSelectNext(s, i, t, Passes(t, i + 1));
    }
  }

  /** `selectionSort` (lines 106-120): exactly one snapshot per position;
      the `k`-th snapshot is a rearrangement of the input whose first
      `k + 1` positions hold its `k + 1` smallest values in ascending order;
      the final array is the input sorted. */
  function Selection(a: seq<int>): (r: Run)
    ensures |r.snaps| == |a|
    ensures forall k :: 0 <= k < |r.snaps| ==>
      |r.snaps[k]| == |a| && multiset(r.snaps[k]) == multiset(a) &&
      SortedRange(r.snaps[k], 0, k + 1) && Split(r.snaps[k], k + 1)
    ensures Sorted(r.final) && multiset(r.final) == multiset(a)
    ensures LastOr(a, r.snaps) == r.final
  {
    PassesSelect(a, 0);
    Passes(a, 0)
  }
}
