/** Quick sort with the Lomuto partition: the last element of each range
    is the pivot; every exchange emits a snapshot of the whole array. */
module QuickSort {
  import opened SortCommon

  /** What the partition loop leaves: the array, the store index `i`
      (where the pivot will go) and the snapshots emitted. */
  datatype Parted = Parted(arr: seq<int>, store: int, snaps: seq<seq<int>>)

  /** The partition loop (ArrayVisualizer.jsx, lines 161-167) from scan
      position `j` with store index `i`: an element strictly below the
      pivot is exchanged to the store index, emitting a snapshot; one
      snapshot per element moved below the store index. */
  function PartitionLoop(s: seq<int>, right: int, pivot: int, i: int, j: int): (p: Parted)
    requires 0 <= i <= j <= right < |s|
    ensures |p.arr| == |s| && i <= p.store <= right
    ensures |p.snaps| == p.store - i
    ensures LastOr(s, p.snaps) == p.arr
    decreases right - j
  {
    if j == right then Parted(s, i, [])
    else if s[j] < pivot then
      var t := Swap(s, i, j);
      var rest := PartitionLoop(t, right, pivot, i + 1, j + 1);
      LastOrAppend(s, [t], rest.snaps);
      Parted(rest.arr, rest.store, [t] + rest.snaps)
    else PartitionLoop(s, right, pivot, i, j + 1)
  }

  /** A scan step that leaves the value in place. */
  lemma LoopSkips(s: seq<int>, right: int, pivot: int, i: int, j: int)
    requires 0 <= i <= j < right < |s| && s[j] >= pivot
    ensures PartitionLoop(s, right, pivot, i, j) == PartitionLoop(s, right, pivot, i, j + 1)
  {
  }

  /** An exchanging step touches only `[i, right)` when the rest of the
      loop touches only `[i + 1, right)`. */
  lemma FrameSwapStep(s: seq<int>, right: int, pivot: int, i: int, j: int, t: seq<int>, rest: Parted)
    requires 0 <= i <= j < right < |s| && s[j] < pivot && t == Swap(s, i, j)
    requires rest == PartitionLoop(t, right, pivot, i + 1, j + 1)
    requires forall k :: 0 <= k < |s| && !(i + 1 <= k < right) ==> rest.arr[k] == t[k]
    ensures forall k :: 0 <= k < |s| && !(i <= k < right) ==> PartitionLoop(s, right, pivot, i, j).arr[k] == s[k]
  {
    LoopSwaps(s, right, pivot, i, j, t, rest);
  }

  /** The partition touches only `[i, right)`. */
  lemma {:induction false} PartitionFrame(s: seq<int>, right: int, pivot: int, i: int, j: int)
    requires 0 <= i <= j <= right < |s|
    ensures forall k :: 0 <= k < |s| && !(i <= k < right) ==> PartitionLoop(s, right, pivot, i, j).arr[k] == s[k]
    decreases right - j
  {
    if j < right {
      if s[j] < pivot {
        var t := Swap(s, i, j);
        PartitionFrame(t, right, pivot, i + 1, j + 1);
        FrameSwapStep(s, right, pivot, i, j, t, PartitionLoop(t, right, pivot, i + 1, j + 1));
      } else {
        PartitionFrame(s, right, pivot, i, j + 1);
        LoopSkips(s, right, pivot, i, j);
      }
    }
  }

  predicate Below(s: seq<int>, lo: int, hi: int, x: int)
    requires 0 <= lo <= hi <= |s|
  {
    forall k :: lo <= k < hi ==> s[k] < x
  }

  predicate AtLeast(s: seq<int>, lo: int, hi: int, x: int)
    requires 0 <= lo <= hi <= |s|
  {
    forall k :: lo <= k < hi ==> s[k] >= x
  }

  /** One exchange keeps the invariant with the store and scan indices
      both advanced. */
  lemma PartitionStep(s: seq<int>, left: int, right: int, pivot: int, i: int, j: int)
    requires 0 <= left <= i <= j < right < |s| && s[j] < pivot
    requires Below(s, left, i, pivot) && AtLeast(s, i, j, pivot)
    ensures Below(Swap(s, i, j), left, i + 1, pivot) && AtLeast(Swap(s, i, j), i + 1, j + 1, pivot)
  {
    var t := Swap(s, i, j);
    assert forall k :: left <= k < i ==> t[k] == s[k];
    assert forall k :: i < k < j ==> t[k] == s[k];
  }

  /** One exchanging step of the partition loop. */
  lemma LoopSwaps(s: seq<int>, right: int, pivot: int, i: int, j: int, t: seq<int>, rest: Parted)
    requires 0 <= i <= j < right < |s| && s[j] < pivot && t == Swap(s, i, j)
    requires rest == PartitionLoop(t, right, pivot, i + 1, j + 1)
    ensures PartitionLoop(s, right, pivot, i, j) == Parted(rest.arr, rest.store, [t] + rest.snaps)
  {
  }

  /** The loop invariant of the partition: `[left, i)` below the pivot and
      `[i, j)` at least the pivot; at the end it covers `[left, right)`. */
  lemma {:induction false} PartitionSplits(s: seq<int>, left: int, right: int, pivot: int, i: int, j: int)
    requires 0 <= left <= i <= j <= right < |s|
    requires Below(s, left, i, pivot) && AtLeast(s, i, j, pivot)
    ensures Below(PartitionLoop(s, right, pivot, i, j).arr, left, PartitionLoop(s, right, pivot, i, j).store, pivot)
    ensures AtLeast(PartitionLoop(s, right, pivot, i, j).arr, PartitionLoop(s, right, pivot, i, j).store, right, pivot)
    decreases right - j
  {
    if j < right {
      if s[j] < pivot {
        var t := Swap(s, i, j);
        PartitionStep(s, left, right, pivot, i, j);
        PartitionSplits(t, left, right, pivot, i + 1, j + 1);
        LoopSwaps(s, right, pivot, i, j, t, PartitionLoop(t, right, pivot, i + 1, j + 1));
      } else {
        PartitionSplits(s, left, right, pivot, i, j + 1);
      }
    }
  }

  /** An exchange in front of a trace of rearrangements of its result is
      a trace of rearrangements of the input. */
  lemma PermsCons(s: seq<int>, i: int, j: int, t: seq<int>, rest: Parted)
    requires 0 <= i < |s| && 0 <= j < |s| && t == Swap(s, i, j)
    requires multiset(rest.arr) == multiset(t) && AllPerms(rest.snaps, multiset(t))
    ensures multiset(rest.arr) == multiset(s) && AllPerms([t] + rest.snaps, multiset(s))
  {
    SwapPerm(s, i, j);
    assert AllPerms([t], multiset(s));
    AllPermsAppend([t], rest.snaps, multiset(s));
  }

  /** One turn of the partition loop keeps the values and the
      rearrangement trace. */
  lemma PermsNext(s: seq<int>, right: int, pivot: int, i: int, j: int, t: seq<int>, i2: int, rest: Parted)
    requires 0 <= i <= j < right < |s|
    requires t == (if s[j] < pivot then Swap(s, i, j) else s)
    requires i2 == (if s[j] < pivot then i + 1 else i)
    requires i2 <= j + 1 && rest == PartitionLoop(t, right, pivot, i2, j + 1)
    requires multiset(rest.arr) == multiset(t) && AllPerms(rest.snaps, multiset(t))
    ensures multiset(PartitionLoop(s, right, pivot, i, j).arr) == multiset(s)
    ensures AllPerms(PartitionLoop(s, right, pivot, i, j).snaps, multiset(s))
  {
    if s[j] < pivot {
      LoopSwaps(s, right, pivot, i, j, t, rest);
      PermsCons(s, i, j, t, rest);
    }
  }

  /** The partition only exchanges values, and so does every snapshot. */
  lemma {:induction false} PartitionPerms(s: seq<int>, right: int, pivot: int, i: int, j: int)
    requires 0 <= i <= j <= right < |s|
    ensures multiset(PartitionLoop(s, right, pivot, i, j).arr) == multiset(s)
    ensures AllPerms(PartitionLoop(s, right, pivot, i, j).snaps, multiset(s))
    decreases right - j
  {
    if j < right {
      var t := if s[j] < pivot then Swap(s, i, j) else s;
      var i2 := if s[j] < pivot then i + 1 else i;
      PartitionPerms(t, right, pivot, i2, j + 1);
      PermsNext(s, right, pivot, i, j, t, i2, PartitionLoop(t, right, pivot, i2, j + 1));
    }
  }

  /** Lines 160-170: partition `[left, right]` around `arr[right]`, then
      exchange the pivot into the store index, always with a snapshot. */
  function Partition(s: seq<int>, left: int, right: int): (p: Parted)
    requires 0 <= left < right < |s|
    ensures |p.arr| == |s| && left <= p.store <= right
    ensures LastOr(s, p.snaps) == p.arr
  {
    var q := PartitionLoop(s, right, s[right], left, left);
    var placed := Swap(q.arr, q.store, right);
    LastOrAppend(s, q.snaps, [placed]);
    Parted(placed, q.store, q.snaps + [placed])
  }

  /** After the partition the pivot sits at the store index with smaller
      values before it and the rest after it, within `[left, right]`;
      nothing else moved, and every snapshot is a rearrangement. */
  lemma PartitionPlaces(s: seq<int>, left: int, right: int, p: Parted)
    requires 0 <= left < right < |s| && p == Partition(s, left, right)
    ensures p.arr[p.store] == s[right] &&
      Below(p.arr, left, p.store, s[right]) && AtLeast(p.arr, p.store + 1, right + 1, s[right]) &&
      (forall k :: 0 <= k < |s| && !(left <= k <= right) ==> p.arr[k] == s[k]) &&
      multiset(p.arr) == multiset(s) && AllPerms(p.snaps, multiset(s))
  {
    var pivot := s[right];
    var q := PartitionLoop(s, right, pivot, left, left);
    PartitionSplits(s, left, right, pivot, left, left);
    PartitionFrame(s, right, pivot, left, left);
    var placed := Swap(q.arr, q.store, right);
    assert multiset(placed) == multiset(s) by {
      PartitionPerms(s, right, pivot, left, left);
      SwapPerm(q.arr, q.store, right);
    }
    assert AllPerms(q.snaps + [placed], multiset(s)) by {
      PartitionPerms(s, right, pivot, left, left);
      assert AllPerms([placed], multiset(s));
      AllPermsAppend(q.snaps, [placed], multiset(s));
    }
  }

  /** Values below the pivot stay below it however the range is rearranged. */
  lemma BelowCarries(a: seq<int>, b: seq<int>, lo: int, hi: int, x: int)
    requires 0 <= lo <= hi <= |a| == |b|
    requires multiset(a[lo..hi]) == multiset(b[lo..hi]) && Below(a, lo, hi, x)
    ensures Below(b, lo, hi, x)
  {
    PermMembers(b[lo..hi], a[lo..hi]);
    forall k | lo <= k < hi
      ensures b[k] < x
    {
      assert b[lo..hi][k - lo] in a[lo..hi];
    }
  }

  lemma AtLeastCarries(a: seq<int>, b: seq<int>, lo: int, hi: int, x: int)
    requires 0 <= lo <= hi <= |a| == |b|
    requires multiset(a[lo..hi]) == multiset(b[lo..hi]) && AtLeast(a, lo, hi, x)
    ensures AtLeast(b, lo, hi, x)
  {
    PermMembers(b[lo..hi], a[lo..hi]);
    forall k | lo <= k < hi
      ensures b[k] >= x
    {
      assert b[lo..hi][k - lo] in a[lo..hi];
    }
  }

  /** Sorted left side, pivot, sorted right side: a sorted range. */
  lemma Assemble(f: seq<int>, left: int, st: int, right: int)
    requires 0 <= left <= st <= right < |f|
    requires Below(f, left, st, f[st]) && AtLeast(f, st + 1, right + 1, f[st])
    requires SortedRange(f, left, st) && SortedRange(f, st + 1, right + 1)
    ensures SortedRange(f, left, right + 1)
  {
  }

  /** The two recursive calls around a placed pivot leave `[left, right]`
      sorted. */
  lemma Combine(s: seq<int>, a: seq<int>, b: seq<int>, c: seq<int>, left: int, st: int, right: int)
    requires |a| == |s| && |b| == |s| && |c| == |s| && 0 <= left <= st <= right < |s|
    requires a[st] == s[right] && Below(a, left, st, s[right]) && AtLeast(a, st + 1, right + 1, s[right])
    requires multiset(b) == multiset(a) && SortedRange(b, left, st)
    requires forall k :: 0 <= k < |s| && !(left <= k <= st - 1) ==> b[k] == a[k]
    requires multiset(c) == multiset(b) && SortedRange(c, st + 1, right + 1)
    requires forall k :: 0 <= k < |s| && !(st + 1 <= k <= right) ==> c[k] == b[k]
    ensures SortedRange(c, left, right + 1)
  {
    var pivot := s[right];
    assert Below(c, left, st, pivot) by {
      RangePerm(a, b, left, st);
      BelowCarries(a, b, left, st, pivot);
    }
    assert AtLeast(c, st + 1, right + 1, pivot) by {
      assert AtLeast(b, st + 1, right + 1, pivot);
      RangePerm(b, c, st + 1, right + 1);
      AtLeastCarries(b, c, st + 1, right + 1, pivot);
    }
    Assemble(c, left, st, right);
  }

  /** Three traces in a row, each only rearranging the values. */
  lemma TraceCompose(s: seq<int>, a: seq<int>, b: seq<int>, c: seq<int>,
                     sa: seq<seq<int>>, sb: seq<seq<int>>, sc: seq<seq<int>>)
    requires LastOr(s, sa) == a && LastOr(a, sb) == b && LastOr(b, sc) == c
    requires multiset(a) == multiset(s) && multiset(b) == multiset(a)
    requires AllPerms(sa, multiset(s)) && AllPerms(sb, multiset(a)) && AllPerms(sc, multiset(b))
    ensures LastOr(s, sa + sb + sc) == c && AllPerms(sa + sb + sc, multiset(s))
  {
    LastOrAppend(s, sa, sb);
    LastOrAppend(s, sa + sb, sc);
    AllPermsAppend(sa, sb, multiset(s));
    AllPermsAppend(sa + sb, sc, multiset(s));
  }

  /** One level of the recursion: partition, then the two recursive calls
      with their own guarantees, give the guarantees for the whole range. */
  lemma SortStep(s: seq<int>, left: int, right: int, p: Parted, lo: Run, hi: Run)
    requires 0 <= left < right < |s| && p == Partition(s, left, right)
    requires |lo.final| == |s| && multiset(lo.final) == multiset(p.arr)
    requires forall k :: 0 <= k < |s| && !(left <= k <= p.store - 1) ==> lo.final[k] == p.arr[k]
    requires AllPerms(lo.snaps, multiset(p.arr)) && LastOr(p.arr, lo.snaps) == lo.final
    requires SortedRange(lo.final, left, p.store)
    requires |hi.final| == |s| && multiset(hi.final) == multiset(lo.final)
    requires forall k :: 0 <= k < |s| && !(p.store + 1 <= k <= right) ==> hi.final[k] == lo.final[k]
    requires AllPerms(hi.snaps, multiset(lo.final)) && LastOr(lo.final, hi.snaps) == hi.final
    requires SortedRange(hi.final, p.store + 1, right + 1)
    ensures forall k :: 0 <= k < |s| && !(left <= k <= right) ==> hi.final[k] == s[k]
    ensures multiset(hi.final) == multiset(s)
    ensures AllPerms(p.snaps + lo.snaps + hi.snaps, multiset(s))
    ensures SortedRange(hi.final, left, right + 1)
    ensures LastOr(s, p.snaps + lo.snaps + hi.snaps) == hi.final
  {
    PartitionPlaces(s, left, right, p);
    TraceCompose(s, p.arr, lo.final, hi.final, p.snaps, lo.snaps, hi.snaps);
    Combine(s, p.arr, lo.final, hi.final, left, p.store, right);
  }

  /** `sort(arr, left, right)` (lines 158-173): partition, then sort both
      sides of the pivot. The range ends up sorted, nothing outside it is
      touched, and every snapshot is a rearrangement of the input. */
  function QSort(s: seq<int>, left: int, right: int): (r: Run)
    requires 0 <= left <= right + 1 <= |s|
    ensures |r.final| == |s|
    ensures forall k :: 0 <= k < |s| && !(left <= k <= right) ==> r.final[k] == s[k]
    ensures multiset(r.final) == multiset(s) && AllPerms(r.snaps, multiset(s))
    ensures SortedRange(r.final, left, right + 1)
    ensures LastOr(s, r.snaps) == r.final
    decreases right - left + 1
  {
    if left >= right then Run(s, [])
    else
      var p := Partition(s, left, right);
      var lo := QSort(p.arr, left, p.store - 1);
      var hi := QSort(lo.final, p.store + 1, right);
      SortStep(s, left, right, p, lo, hi);
      Run(hi.final, p.snaps + lo.snaps + hi.snaps)
  }

  /** `quickSort` (lines 154-180) on a copy of the array: every snapshot is
      a rearrangement of the input, and the final array is the input
      sorted. */
  function Quick(a: seq<int>): (r: Run)
    ensures Sorted(r.final) && multiset(r.final) == multiset(a)
    ensures forall k :: 0 <= k < |r.snaps| ==> multiset(r.snaps[k]) == multiset(a)
    ensures LastOr(a, r.snaps) == r.final
  {
    var r := QSort(a, 0, |a| - 1);
    AllPermsAt(r.snaps, multiset(a));
    SortedRangeWhole(r.final);
    r
  }
}
