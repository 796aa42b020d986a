/** Definitions shared by the six array sort engines: ordering predicates,
    the swap primitive, the trace of emitted snapshots, and the inversion
    count that measures how far an array is from sorted. */
module SortCommon {

  /** The value a sort engine produces: the array it leaves behind and the
      snapshots it emitted, in emission order. */
  datatype Run = Run(final: seq<int>, snaps: seq<seq<int>>)

  predicate Sorted(s: seq<int>) {
    forall i, j :: 0 <= i < j < |s| ==> s[i] <= s[j]
  }

  /** `s[lo..hi]` is ascending. */
  predicate SortedRange(s: seq<int>, lo: int, hi: int)
    requires 0 <= lo <= hi <= |s|
  {
    forall i, j :: lo <= i < j < hi ==> s[i] <= s[j]
  }

  lemma SortedRangeWhole(s: seq<int>)
    requires SortedRange(s, 0, |s|)
    ensures Sorted(s)
  {
  }

  /** Every element of `s[..k]` is at most every element of `s[k..]`. */
  predicate Split(s: seq<int>, k: int)
    requires 0 <= k <= |s|
  {
    forall i, j :: 0 <= i < k <= j < |s| ==> s[i] <= s[j]
  }

  /** Exchange the values at `i` and `j` (the destructuring swap of the source). */
  function Swap(s: seq<int>, i: int, j: int): (t: seq<int>)
    requires 0 <= i < |s| && 0 <= j < |s|
    ensures |t| == |s|
    ensures t[i] == s[j] && t[j] == s[i]
    ensures forall k :: 0 <= k < |s| && k != i && k != j ==> t[k] == s[k]
  {
    s[i := s[j]][j := s[i]]
  }

  /** A swap only rearranges values. (Kept out of `Swap`'s own contract: a
      multiset fact on every swap slows down every proof that mentions one.) */
  lemma SwapPerm(s: seq<int>, i: int, j: int)
    requires 0 <= i < |s| && 0 <= j < |s|
    ensures multiset(Swap(s, i, j)) == multiset(s)
  {
    assert multiset(s[i := s[j]]) == multiset(s) - multiset{s[i]} + multiset{s[j]};
  }

  /** The last array a trace leaves behind, or `start` if nothing was emitted. */
  function LastOr(start: seq<int>, snaps: seq<seq<int>>): seq<int> {
    if |snaps| == 0 then start else snaps[|snaps| - 1]
  }

  lemma LastOrAppend(start: seq<int>, a: seq<seq<int>>, b: seq<seq<int>>)
    ensures LastOr(start, a + b) == LastOr(LastOr(start, a), b)
  {
    if |b| > 0 {
      assert (a + b)[|a + b| - 1] == b[|b| - 1];
    } else {
      assert a + b == a;
    }
  }

  /** When two arrays agree from `m` on and hold the same values overall,
      their prefixes before `m` hold the same values too. */
  lemma PrefixPerm(a: seq<int>, b: seq<int>, m: int)
    requires |a| == |b| && 0 <= m <= |a|
    requires multiset(a) == multiset(b) && a[m..] == b[m..]
    ensures multiset(a[..m]) == multiset(b[..m])
  {
    assert a == a[..m] + a[m..];
    assert b == b[..m] + b[m..];
    assert multiset(a) == multiset(a[..m]) + multiset(a[m..]);
    assert multiset(b) == multiset(b[..m]) + multiset(b[m..]);
    assert multiset(a[..m]) == multiset(a) - multiset(a[m..]);
  }

  /** Every element of a permutation of `b` is found somewhere in `b`. */
  lemma PermMembers(a: seq<int>, b: seq<int>)
    requires multiset(a) == multiset(b)
    ensures forall k :: 0 <= k < |a| ==> a[k] in b
  {
    forall k | 0 <= k < |a|
      ensures a[k] in b
    {
      assert a[k] in multiset(a);
    }
  }

  /** Rearranging the prefix before `m` keeps the prefix below the suffix. */
  lemma SplitPerm(s: seq<int>, f: seq<int>, m: int)
    requires |f| == |s| && 0 <= m <= |s|
    requires multiset(f[..m]) == multiset(s[..m]) && f[m..] == s[m..]
    requires Split(s, m)
    ensures Split(f, m)
  {
    PermMembers(f[..m], s[..m]);
    forall a, b | 0 <= a < m <= b < |s|
      ensures f[a] <= f[b]
    {
      assert f[..m][a] in s[..m];
      var k :| 0 <= k < m && s[..m][k] == f[a];
      assert f[b] == f[m..][b - m] == s[b];
    }
  }

  // ---------------------------------------------------------------------
  // Inversion count

  /** How many elements of `t` are strictly greater than `x`. */
  function CountAbove(t: seq<int>, x: int): nat {
    if |t| == 0 then 0
    else (if t[0] > x then 1 else 0) + CountAbove(t[1..], x)
  }

  /** The number of pairs `i < j` with `s[i] > s[j]`, counted by the later
      element of each pair. */
  function Inversions(s: seq<int>): nat {
    if |s| == 0 then 0
    else Inversions(s[..|s| - 1]) + CountAbove(s[..|s| - 1], s[|s| - 1])
  }

  lemma {:induction false} CountAboveAppend(t: seq<int>, u: seq<int>, x: int)
    ensures CountAbove(t + u, x) == CountAbove(t, x) + CountAbove(u, x)
  {
    if |t| > 0 {
      assert (t + u)[1..] == t[1..] + u;
      CountAboveAppend(t[1..], u, x);
    } else {
      assert t + u == u;
    }
  }

  /** Removing the value at `k` from `u` removes it from the multiset. */
  lemma RemoveAt(u: seq<int>, k: int)
    requires 0 <= k < |u|
    ensures multiset(u[..k] + u[k + 1..]) == multiset(u) - multiset{u[k]}
  {
    assert u == u[..k] + [u[k]] + u[k + 1..];
  }

  /** Removing the value at `k` from `u` removes its contribution to the
      count. */
  lemma CountAboveRemove(u: seq<int>, k: int, x: int)
    requires 0 <= k < |u|
    ensures CountAbove(u, x) == CountAbove(u[..k] + u[k + 1..], x) + (if u[k] > x then 1 else 0)
  {
    assert u == u[..k] + [u[k]] + u[k + 1..];
    CountAboveAppend(u[..k] + [u[k]], u[k + 1..], x);
    CountAboveAppend(u[..k], [u[k]], x);
    CountAboveAppend(u[..k], u[k + 1..], x);
    assert CountAbove([u[k]], x) == (if u[k] > x then 1 else 0);
  }

  /** `CountAbove` depends only on the multiset of values. */
  lemma {:induction false} CountAbovePerm(t: seq<int>, u: seq<int>, x: int)
    requires multiset(t) == multiset(u)
    ensures CountAbove(t, x) == CountAbove(u, x)
    decreases |t|
  {
    if |t| > 0 {
      assert t[0] in multiset(u);
      var k :| 0 <= k < |u| && u[k] == t[0];
      var rest := u[..k] + u[k + 1..];
      RemoveAt(u, k);
      assert t == [t[0]] + t[1..];
      assert multiset(t[1..]) == multiset(t) - multiset{t[0]};
      CountAbovePerm(t[1..], rest, x);
      CountAboveRemove(u, k, x);
    }
  }

  lemma {:induction false} AllAbove(t: seq<int>, x: int)
    requires forall i :: 0 <= i < |t| ==> t[i] > x
    ensures CountAbove(t, x) == |t|
  {
    if |t| > 0 {
      AllAbove(t[1..], x);
    }
  }

  /** Extending a prefix by one element adds that element's inversions. */
  lemma InversionsExtend(a: seq<int>, i: int)
    requires 0 <= i < |a|
    ensures Inversions(a[..i + 1]) == Inversions(a[..i]) + CountAbove(a[..i], a[i])
  {
    assert a[..i + 1][..i] == a[..i];
  }

  lemma SortedHasNoInversions(s: seq<int>)
    requires Sorted(s)
    ensures Inversions(s) == 0
  {
    if |s| > 0 {
      var p := s[..|s| - 1];
      assert Sorted(p);
      SortedHasNoInversions(p);
      NoneAbove(p, s[|s| - 1]);
    }
  }

  lemma {:induction false} NoneAbove(t: seq<int>, x: int)
    requires forall i :: 0 <= i < |t| ==> t[i] <= x
    ensures CountAbove(t, x) == 0
  {
    if |t| > 0 {
      NoneAbove(t[1..], x);
    }
  }

  /** Exchanging an out-of-order adjacent pair removes exactly one inversion. */
  lemma {:induction false} AdjacentSwapInversions(s: seq<int>, k: int)
    requires 0 <= k && k + 1 < |s| && s[k] > s[k + 1]
    ensures Inversions(Swap(s, k, k + 1)) + 1 == Inversions(s)
    decreases |s|
  {
    var t := Swap(s, k, k + 1);
    var n := |s|;
    if k + 1 == n - 1 {
      var p := s[..k];
      assert s[..n - 1] == p + [s[k]];
      assert t[..n - 1] == p + [s[k + 1]];
      assert s[..n - 1][..k] == p;
      assert t[..n - 1][..k] == p;
      CountAboveAppend(p, [s[k]], s[k + 1]);
      CountAboveAppend(p, [s[k + 1]], s[k]);
      assert CountAbove([s[k]], s[k + 1]) == 1;
      assert CountAbove([s[k + 1]], s[k]) == 0;
    } else {
      var ps := s[..n - 1];
      var pt := t[..n - 1];
      assert pt == Swap(ps, k, k + 1);
      AdjacentSwapInversions(ps, k);
      CountAbovePerm(pt, ps, s[n - 1]);
    }
  }

  // ---------------------------------------------------------------------
  // Traces of rearrangements

  /** Every snapshot holds exactly the values `m`. (Stated recursively:
      a quantified form slows down every proof that concatenates traces;
      `AllPermsAt` gives the quantified reading.) */
  predicate AllPerms(snaps: seq<seq<int>>, m: multiset<int>) {
    |snaps| == 0 || (multiset(snaps[0]) == m && AllPerms(snaps[1..], m))
  }

  lemma {:induction false} AllPermsAt(snaps: seq<seq<int>>, m: multiset<int>)
    requires AllPerms(snaps, m)
    ensures forall k :: 0 <= k < |snaps| ==> multiset(snaps[k]) == m
  {
    if |snaps| > 0 {
      AllPermsAt(snaps[1..], m);
      assert forall k :: 1 <= k < |snaps| ==> snaps[k] == snaps[1..][k - 1];
    }
  }

  lemma {:induction false} AllPermsAppend(a: seq<seq<int>>, b: seq<seq<int>>, m: multiset<int>)
    requires AllPerms(a, m) && AllPerms(b, m)
    ensures AllPerms(a + b, m)
  {
    if |a| > 0 {
      assert (a + b)[1..] == a[1..] + b;
      AllPermsAppend(a[1..], b, m);
    } else {
      assert a + b == b;
    }
  }

  /** Two arrays with the same values that agree outside `[lo, hi)` hold
      the same values inside it. */
  lemma RangePerm(a: seq<int>, b: seq<int>, lo: int, hi: int)
    requires |a| == |b| && 0 <= lo <= hi <= |a| && multiset(a) == multiset(b)
    requires forall k :: 0 <= k < |a| && !(lo <= k < hi) ==> a[k] == b[k]
    ensures multiset(a[lo..hi]) == multiset(b[lo..hi])
  {
    assert a == a[..lo] + a[lo..hi] + a[hi..];
    assert b == b[..lo] + b[lo..hi] + b[hi..];
    assert a[..lo] == b[..lo];
    assert a[hi..] == b[hi..];
    assert multiset(a) == multiset(a[..lo]) + multiset(a[lo..hi]) + multiset(a[hi..]);
    assert multiset(b) == multiset(b[..lo]) + multiset(b[lo..hi]) + multiset(b[hi..]);
    assert multiset(a[lo..hi]) == multiset(a) - multiset(a[..lo]) - multiset(a[hi..]);
  }
}
