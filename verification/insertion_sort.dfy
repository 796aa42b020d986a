/** Insertion sort: each key is carried left by shifting larger values one
    place right; a snapshot is emitted after every shift and after the key
    is placed. */
module InsertionSort {
  import opened SortCommon

  /** The inner `while` loop on exit: the array with the larger values
      shifted right, the position `j + 1` the key goes to, and one
      snapshot per shift. */
  datatype Shifted = Shifted(arr: seq<int>, hole: int, snaps: seq<seq<int>>)

  /** What the inner loop from index `j` leaves: the array of `s` with
      `s[hole..j]` moved one place right, every moved value greater than
      the key and the value before the hole (if any) not greater, and one
      snapshot per moved value. */
  predicate ShiftedOk(s: seq<int>, key: int, j: int, r: Shifted)
    requires -1 <= j && j + 1 < |s|
  {
    && |r.arr| == |s| && 0 <= r.hole <= j + 1
    && |r.snaps| == j + 1 - r.hole
    && (forall k :: 0 <= k <= r.hole ==> r.arr[k] == s[k])
    && (forall k :: r.hole < k <= j + 1 ==> r.arr[k] == s[k - 1])
    && (forall k :: j + 1 < k < |s| ==> r.arr[k] == s[k])
    && (forall k :: r.hole <= k <= j ==> s[k] > key)
    && (r.hole == 0 || s[r.hole - 1] <= key)
  }

  /** The `while (j >= 0 && arr[j] > key)` loop (ArrayVisualizer.jsx,
      lines 94-98) from index `j`. Between a shift and the next one, the
      vacated slot still holds its old value, so the array briefly holds
      that value twice and lacks the key. */
  function ShiftLoop(s: seq<int>, key: int, j: int): (r: Shifted)
    requires -1 <= j && j + 1 < |s|
    ensures ShiftedOk(s, key, j, r)
    decreases j + 1
  {
    if j >= 0 && s[j] > key then
      var t := s[j + 1 := s[j]];
      var rest := ShiftLoop(t, key, j - 1);
      ShiftStep(s, key, j, t, rest);
      Shifted(rest.arr, rest.hole, [t] + rest.snaps)
    else
      Shifted(s, j + 1, [])
  }

  /** One shift keeps `ShiftedOk`: what the rest of the loop leaves on
      the shifted array is what the loop leaves on `s`. */
  lemma ShiftStep(s: seq<int>, key: int, j: int, t: seq<int>, rest: Shifted)
    requires 0 <= j && j + 1 < |s| && s[j] > key && t == s[j + 1 := s[j]]
    requires ShiftedOk(t, key, j - 1, rest)
    ensures ShiftedOk(s, key, j, Shifted(rest.arr, rest.hole, [t] + rest.snaps))
  {
    assert forall k :: 0 <= k <= j ==> t[k] == s[k];
  }

  /** One iteration of the outer loop (lines 92-100): shift, then place the
      key at `j + 1`; the result is the array after placement and the
      snapshots of the iteration. */
  function Iteration(s: seq<int>, i: nat): (r: Run)
    requires 1 <= i < |s|
    ensures |r.final| == |s| && |r.snaps| > 0 && r.snaps[|r.snaps| - 1] == r.final
  {
    var sh := ShiftLoop(s, s[i], i - 1);
    var placed := sh.arr[sh.hole := s[i]];
    Run(placed, sh.snaps + [placed])
  }

  /** Iteration `i` moves the key `s[i]` to the slot after the last value
      of the prefix not greater than it. */
  lemma IterationShape(s: seq<int>, i: nat)
    requires 1 <= i < |s|
    ensures var h := ShiftLoop(s, s[i], i - 1).hole;
      && 0 <= h <= i
      && Iteration(s, i).final == s[..h] + [s[i]] + s[h..i] + s[i + 1..]
      && (h == 0 || s[h - 1] <= s[i])
      && (forall k :: h <= k < i ==> s[k] > s[i])
      && |Iteration(s, i).snaps| == i - h + 1
  {
    var sh := ShiftLoop(s, s[i], i - 1);
    var h := sh.hole;
    var placed := sh.arr[h := s[i]];
    var want := s[..h] + [s[i]] + s[h..i] + s[i + 1..];
    assert |want| == |placed|;
    forall k | 0 <= k < |s|
      ensures placed[k] == want[k]
    {
      if k < h {
        assert want[k] == s[k];
      } else if k == h {
        assert want[k] == s[i];
      } else if k <= i {
        assert want[k] == s[k - 1];
      } else {
        assert want[k] == s[k];
      }
    }
  }

  /** A value inserted between a lower and a higher part of a sorted sequence
      keeps it sorted. */
  lemma InsertSorted(p: seq<int>, x: int, q: seq<int>)
    requires Sorted(p + q)
    requires |p| == 0 || p[|p| - 1] <= x
    requires forall k :: 0 <= k < |q| ==> x < q[k]
    ensures Sorted(p + [x] + q)
  {
    var r := p + [x] + q;
    forall a, b | 0 <= a < b < |r|
      ensures r[a] <= r[b]
    {
      if b < |p| {
        assert r[a] == (p + q)[a] && r[b] == (p + q)[b];
      } else if b == |p| {
        assert r[a] == (p + q)[a] && r[|p| - 1] == (p + q)[|p| - 1];
      } else if a < |p| {
        assert r[a] == (p + q)[a] && r[b] == (p + q)[b - 1];
      } else if a > |p| {
        assert r[a] == (p + q)[a - 1] && r[b] == (p + q)[b - 1];
      }
    }
  }

  /** The slices of `placed` around the key. */
  lemma RotateSlices(s: seq<int>, i: nat, h: nat, placed: seq<int>)
    requires h <= i < |s|
    requires placed == s[..h] + [s[i]] + s[h..i] + s[i + 1..]
    ensures placed[..i + 1] == s[..h] + [s[i]] + s[h..i]
    ensures placed[i + 1..] == s[i + 1..]
    ensures s[..i] == s[..h] + s[h..i]
    ensures s[..i + 1] == s[..h] + s[h..i] + [s[i]]
  {
  }

  /** The key placed between the values of the sorted prefix not greater
      than it and those greater than it leaves that part sorted. */
  lemma RotateSorted(s: seq<int>, i: nat, h: nat)
    requires h <= i < |s| && SortedRange(s, 0, i)
    requires h == 0 || s[h - 1] <= s[i]
    requires forall k :: h <= k < i ==> s[k] > s[i]
    ensures Sorted(s[..h] + [s[i]] + s[h..i])
  {
    var p, q := s[..h], s[h..i];
    assert p + q == s[..i];
    assert Sorted(p + q);
    InsertSorted(p, s[i], q);
  }

  /** The values the key moves past are exactly those of the prefix
      greater than it. */
  lemma RotateCount(s: seq<int>, i: nat, h: nat)
    requires h <= i < |s| && SortedRange(s, 0, i)
    requires h == 0 || s[h - 1] <= s[i]
    requires forall k :: h <= k < i ==> s[k] > s[i]
    ensures CountAbove(s[..i], s[i]) == i - h
  {
    var p, q := s[..h], s[h..i];
    assert p + q == s[..i];
    CountAboveAppend(p, q, s[i]);
    NoneAbove(p, s[i]);
    assert forall k :: 0 <= k < |q| ==> q[k] == s[h + k];
    AllAbove(q, s[i]);
  }

  /** Moving `s[i]` into slot `h` of a sorted prefix, past exactly the
      values greater than it, sorts `s[..i + 1]`. */
  lemma RotateIntoPlace(s: seq<int>, i: nat, h: nat, placed: seq<int>)
    requires h <= i < |s| && SortedRange(s, 0, i)
    requires placed == s[..h] + [s[i]] + s[h..i] + s[i + 1..]
    requires h == 0 || s[h - 1] <= s[i]
    requires forall k :: h <= k < i ==> s[k] > s[i]
    ensures SortedRange(placed, 0, i + 1)
    ensures multiset(placed[..i + 1]) == multiset(s[..i + 1])
    ensures placed[i + 1..] == s[i + 1..]
    ensures CountAbove(s[..i], s[i]) == i - h
  {
    RotateSlices(s, i, h, placed);
    RotateSorted(s, i, h);
    RotateCount(s, i, h);
  }

  /** After iteration `i` the prefix `arr[0..i]` is sorted and holds the
      same values as before; the iteration emits one snapshot per value of
      the sorted prefix greater than the key, plus one for the placement. */
  lemma IterationInserts(s: seq<int>, i: nat)
    requires 1 <= i < |s| && SortedRange(s, 0, i)
    ensures SortedRange(Iteration(s, i).final, 0, i + 1)
    ensures multiset(Iteration(s, i).final[..i + 1]) == multiset(s[..i + 1])
    ensures Iteration(s, i).final[i + 1..] == s[i + 1..]
    ensures |Iteration(s, i).snaps| == CountAbove(s[..i], s[i]) + 1
  {
    IterationShape(s, i);
    RotateIntoPlace(s, i, ShiftLoop(s, s[i], i - 1).hole, Iteration(s, i).final);
  }

  /** The outer `for` loop (lines 91-101) from iteration `i`. */
  function Outer(s: seq<int>, i: nat): (r: Run)
    requires 1 <= i
    ensures |r.final| == |s| && LastOr(s, r.snaps) == r.final
    decreases |s| - i
  {
    if i >= |s| then Run(s, [])
    else
      var it := Iteration(s, i);
      var rest := Outer(it.final, i + 1);
      LastOrAppend(s, it.snaps, rest.snaps);
      Run(rest.final, it.snaps + rest.snaps)
  }

  /** The outer loop's invariant relative to the input `a`: the first `i`
      positions hold the first `i` input values in order, the rest is
      untouched. */
  predicate OuterInvariant(a: seq<int>, s: seq<int>, i: nat) {
    1 <= i <= |s| == |a| && SortedRange(s, 0, i)
    && multiset(s[..i]) == multiset(a[..i]) && s[i..] == a[i..]
  }

  /** One iteration keeps the invariant and emits one snapshot per
      inversion that `a[i]` forms with the values before it, plus one. */
  lemma IterationKeepsInvariant(a: seq<int>, s: seq<int>, i: nat)
    requires OuterInvariant(a, s, i) && i < |s|
    ensures OuterInvariant(a, Iteration(s, i).final, i + 1)
    ensures |Iteration(s, i).snaps| == CountAbove(a[..i], a[i]) + 1
  {
    IterationInserts(s, i);
    PrefixGrows(a, s, i);
    CountAbovePerm(s[..i], a[..i], a[i]);
  }

  /** The invariant's prefixes grow by the same value. */
  lemma PrefixGrows(a: seq<int>, s: seq<int>, i: nat)
    requires OuterInvariant(a, s, i) && i < |s|
    ensures s[i] == a[i] && s[i + 1..] == a[i + 1..]
    ensures multiset(s[..i + 1]) == multiset(a[..i + 1])
  {
    assert s[i] == s[i..][0] == a[i..][0] == a[i];
    assert s[i + 1..] == s[i..][1..];
    assert a[i + 1..] == a[i..][1..];
    assert s[..i + 1] == s[..i] + [s[i]];
    assert a[..i + 1] == a[..i] + [a[i]];
  }

  /** One turn of the outer loop: iteration `i`, then the rest from
      `i + 1` on its result. */
  lemma OuterNext(s: seq<int>, i: nat, it: Run, rest: Run)
    requires 1 <= i < |s| && it == Iteration(s, i) && rest == Outer(it.final, i + 1)
    ensures Outer(s, i) == Run(rest.final, it.snaps + rest.snaps)
  {
  }

  /** The ordering half of one outer turn: if the rest of the loop keeps it for
      whatever satisfies the invariant at `i + 1`, the loop from `i` does. */
  lemma SortedNext(a: seq<int>, s: seq<int>, i: nat, it: Run, rest: Run)
    requires OuterInvariant(a, s, i) && i < |s|
    requires it == Iteration(s, i) && rest == Outer(it.final, i + 1)
    requires OuterInvariant(a, it.final, i + 1) ==> Sorted(rest.final)
    ensures Sorted(Outer(s, i).final)
  {
    IterationKeepsInvariant(a, s, i);
    OuterNext(s, i, it, rest);
  }

  /** The permutation half of one outer turn: if the rest of the loop keeps it for
      whatever satisfies the invariant at `i + 1`, the loop from `i` does. */
  lemma PermNext(a: seq<int>, s: seq<int>, i: nat, it: Run, rest: Run)
    requires OuterInvariant(a, s, i) && i < |s|
    requires it == Iteration(s, i) && rest == Outer(it.final, i + 1)
    requires OuterInvariant(a, it.final, i + 1) ==> multiset(rest.final) == multiset(a)
    ensures multiset(Outer(s, i).final) == multiset(a)
  {
    IterationKeepsInvariant(a, s, i);
    OuterNext(s, i, it, rest);
  }

  /** Once every position is placed the loop stops with the array sorted. */
  lemma OuterSortedDone(a: seq<int>, s: seq<int>, i: nat)
    requires OuterInvariant(a, s, i) && i == |s|
    ensures Sorted(Outer(s, i).final)
  {
    SortedRangeWhole(s);
  }

  /** Once every position is placed the array holds the input's values. */
  lemma OuterPermDone(a: seq<int>, s: seq<int>, i: nat)
    requires OuterInvariant(a, s, i) && i == |s|
    ensures multiset(Outer(s, i).final) == multiset(a)
  {
    assert s[..i] == s && a[..i] == a;
  }

  /** Once every position is placed no further snapshot is emitted. */
  lemma OuterCountsDone(a: seq<int>, s: seq<int>, i: nat)
    requires OuterInvariant(a, s, i) && i == |s|
    ensures |Outer(s, i).snaps| + Inversions(a[..i]) + i == Inversions(a) + |a|
  {
    assert a[..i] == a;
  }

  /** From the invariant at iteration `i`, the remaining iterations sort
      the array. */
  lemma {:induction false} OuterSorted(a: seq<int>, s: seq<int>, i: nat)
    requires OuterInvariant(a, s, i)
    ensures Sorted(Outer(s, i).final)
    decreases |s| - i
  {
    if i == |s| {
      OuterSortedDone(a, s, i);
    } else {
      var it := Iteration(s, i);
      IterationKeepsInvariant(a, s, i);
      OuterSorted(a, it.final, i + 1);
      SortedNext(a, s, i, it, Outer(it.final, i + 1));
    }
  }

  /** From the invariant at iteration `i`, the remaining iterations only
      rearrange the input's values. */
  lemma {:induction false} OuterPerm(a: seq<int>, s: seq<int>, i: nat)
    requires OuterInvariant(a, s, i)
    ensures multiset(Outer(s, i).final) == multiset(a)
    decreases |s| - i
  {
    if i == |s| {
      OuterPermDone(a, s, i);
    } else {
      var it := Iteration(s, i);
      IterationKeepsInvariant(a, s, i);
      OuterPerm(a, it.final, i + 1);
      PermNext(a, s, i, it, Outer(it.final, i + 1));
    }
  }

  /** The counting half of one outer turn. */
  lemma CountsNext(a: seq<int>, s: seq<int>, i: nat, it: Run, rest: Run)
    requires OuterInvariant(a, s, i) && i < |s|
    requires it == Iteration(s, i) && rest == Outer(it.final, i + 1)
    requires OuterInvariant(a, it.final, i + 1) ==>
      |rest.snaps| + Inversions(a[..i + 1]) + i + 1 == Inversions(a) + |a|
    ensures |Outer(s, i).snaps| + Inversions(a[..i]) + i == Inversions(a) + |a|
  {
    IterationKeepsInvariant(a, s, i);
    InversionsExtend(a, i);
    OuterNext(s, i, it, rest);
  }

  /** From the invariant at iteration `i`, the remaining iterations emit the
      remaining inversions plus one placement each. */
  lemma {:induction false} OuterCounts(a: seq<int>, s: seq<int>, i: nat)
    requires OuterInvariant(a, s, i)
    ensures |Outer(s, i).snaps| + Inversions(a[..i]) + i == Inversions(a) + |a|
    decreases |s| - i
  {
    if i == |s| {
      OuterCountsDone(a, s, i);
    } else {
      var it := Iteration(s, i);
      IterationKeepsInvariant(a, s, i);
      OuterCounts(a, it.final, i + 1);
      CountsNext(a, s, i, it, Outer(it.final, i + 1));
    }
  }

  /** `insertionSort` (lines 87-104): the final array is the input sorted,
      the last snapshot is the final array, and the number of snapshots is
      the number of inversions of the input plus one placement per key
      after the first. */
  function Insertion(a: seq<int>): (r: Run)
    ensures Sorted(r.final) && multiset(r.final) == multiset(a)
    ensures LastOr(a, r.snaps) == r.final
    ensures |r.snaps| == if |a| == 0 then 0 else Inversions(a) + |a| - 1
  {
    var r := Outer(a, 1);
    if |a| <= 1 then
      r
    else
      assert OuterInvariant(a, a, 1);
      OuterSorted(a, a, 1);
      OuterPerm(a, a, 1);
      OuterCounts(a, a, 1);
      r
  }

  /** The inner loop stops at once when `j` is past the front. */
  lemma ShiftAtFront(s: seq<int>, key: int)
    requires 0 < |s|
    ensures ShiftLoop(s, key, -1) == Shifted(s, 0, [])
  {
  }

  /** With `j == 0` and a greater first value, the loop shifts once and
      leaves the hole at the front. */
  lemma ShiftOnce(s: seq<int>, key: int)
    requires 1 < |s| && s[0] > key
    ensures ShiftLoop(s, key, 0) == Shifted(s[1 := s[0]], 0, [s[1 := s[0]]])
  {
    ShiftAtFront(s[1 := s[0]], key);
  }

  /** The one iteration on a descending pair [x, y]: the shift writes x
      over y, then y goes to the front. */
  lemma DescendingPairIteration(a: seq<int>)
    requires |a| == 2 && a[0] > a[1]
    ensures Iteration(a, 1) == Run([a[1], a[0]], [[a[0], a[0]], [a[1], a[0]]])
  {
    ShiftOnce(a, a[1]);
    var t := a[1 := a[0]];
    assert t == [a[0], a[0]];
    assert t[0 := a[1]] == [a[1], a[0]];
  }

  /** A shift snapshot need not be a permutation of the input: on [2, 1]
      the first snapshot holds 2 twice and has lost the key 1. */
  lemma ShiftSnapshotNotPermutation(a: seq<int>)
    requires a == [2, 1]
    ensures Insertion(a).snaps == [[2, 2], [1, 2]]
    ensures multiset(Insertion(a).snaps[0]) != multiset(a)
  {
    DescendingPairIteration(a);
    assert Outer([1, 2], 2) == Run([1, 2], []);
    assert multiset([2, 2])[2] == 2;
  }
}
