/** Bubble sort: adjacent compare-and-exchange passes, emitting one snapshot
    after every exchange. */
module BubbleSort {
  import opened SortCommon

  /** `Swap(p, k, k + 1)`, the neighbouring exchange of the inner loop. */
  function SwapNext(p: seq<int>, k: int): seq<int>
    requires 0 <= k && k + 1 < |p|
  {
    Swap(p, k, k + 1)
  }

  /** `q` is `p` with one out-of-order neighbouring pair exchanged. */
  ghost predicate AdjacentFix(p: seq<int>, q: seq<int>) {
    exists k {:trigger SwapNext(p, k)} :: 0 <= k && k + 1 < |p| && p[k] > p[k + 1] && q == SwapNext(p, k)
  }

  /** Each snapshot is its predecessor (starting from `start`) with one
      inversion-fixing neighbouring exchange. */
  ghost predicate SwapChain(start: seq<int>, snaps: seq<seq<int>>)
    decreases |snaps|
  {
    |snaps| == 0 || (AdjacentFix(start, snaps[0]) && SwapChain(snaps[0], snaps[1..]))
  }

  lemma {:induction false} SwapChainAppend(start: seq<int>, x: seq<seq<int>>, y: seq<seq<int>>)
    requires SwapChain(start, x) && SwapChain(LastOr(start, x), y)
    ensures SwapChain(start, x + y)
    decreases |x|
  {
    if |x| > 0 {
      assert (x + y)[0] == x[0];
      assert (x + y)[1..] == x[1..] + y;
      assert LastOr(x[0], x[1..]) == LastOr(start, x);
      SwapChainAppend(x[0], x[1..], y);
      assert AdjacentFix(start, x[0]);
      assert SwapChain(x[0], (x + y)[1..]);
    } else {
      assert x + y == y;
    }
  }

  /** Every snapshot of a swap chain removes exactly one inversion. */
  lemma {:induction false} SwapChainInversions(start: seq<int>, snaps: seq<seq<int>>)
    requires SwapChain(start, snaps)
    ensures |snaps| + Inversions(LastOr(start, snaps)) == Inversions(start)
    decreases |snaps|
  {
    if |snaps| > 0 {
      var k :| 0 <= k && k + 1 < |start| && start[k] > start[k + 1] && snaps[0] == SwapNext(start, k);
      AdjacentSwapInversions(start, k);
      SwapChainInversions(snaps[0], snaps[1..]);
      assert LastOr(snaps[0], snaps[1..]) == LastOr(start, snaps);
    }
  }

  /** The inner loop (ArrayVisualizer.jsx, lines 75-80) from position `j`
      up to the bound `hi = n - i - 1`. */
  function Pass(s: seq<int>, j: nat, hi: nat): (r: Run)
    requires j <= hi < |s|
    ensures |r.final| == |s| && r.final[hi + 1..] == s[hi + 1..]
    decreases hi - j
  {
    if j == hi then Run(s, [])
    else if s[j] > s[j + 1] then
      var rest := Pass(SwapNext(s, j), j + 1, hi);
      Run(rest.final, [SwapNext(s, j)] + rest.snaps)
    else
      Pass(s, j + 1, hi)
  }

  /** One exchanging step of the inner loop. */
  lemma PassSwaps(s: seq<int>, j: nat, hi: nat, t: seq<int>, rest: Run)
    requires j < hi < |s| && s[j] > s[j + 1] && t == SwapNext(s, j) && rest == Pass(t, j + 1, hi)
    ensures Pass(s, j, hi) == Run(rest.final, [t] + rest.snaps)
  {
  }

  /** One non-exchanging step of the inner loop. */
  lemma PassSkips(s: seq<int>, j: nat, hi: nat)
    requires j < hi < |s| && s[j] <= s[j + 1]
    ensures Pass(s, j, hi) == Pass(s, j + 1, hi)
  {
  }

  /** An exchanging step keeps the values when the rest of the pass does. */
  lemma PermSwapStep(s: seq<int>, j: nat, hi: nat, t: seq<int>, rest: Run)
    requires j < hi < |s| && s[j] > s[j + 1] && t == SwapNext(s, j) && rest == Pass(t, j + 1, hi)
    requires multiset(rest.final) == multiset(t)
    ensures multiset(Pass(s, j, hi).final) == multiset(s)
  {
    SwapPerm(s, j, j + 1);
    PassSwaps(s, j, hi, t, rest);
  }

  /** A pass only rearranges the values. */
  lemma {:induction false} PassPerm(s: seq<int>, j: nat, hi: nat)
    requires j <= hi < |s|
    ensures multiset(Pass(s, j, hi).final) == multiset(s)
    decreases hi - j
  {
    if j < hi {
      if s[j] > s[j + 1] {
        var t := SwapNext(s, j);
        PassPerm(t, j + 1, hi);
        PermSwapStep(s, j, hi, t, Pass(t, j + 1, hi));
      } else {
        PassPerm(s, j + 1, hi);
        PassSkips(s, j, hi);
      }
    }
  }

  /** A pass only exchanges out-of-order neighbours, one snapshot per exchange. */
  lemma {:induction false} PassChain(s: seq<int>, j: nat, hi: nat)
    requires j <= hi < |s|
    ensures SwapChain(s, Pass(s, j, hi).snaps) && LastOr(s, Pass(s, j, hi).snaps) == Pass(s, j, hi).final
    decreases hi - j
  {
    if j < hi {
      if s[j] > s[j + 1] {
        var t := SwapNext(s, j);
        var rest := Pass(t, j + 1, hi);
        PassChain(t, j + 1, hi);
        PassSwaps(s, j, hi, t, rest);
        ChainCons(s, j, t, rest.snaps);
      } else {
        PassChain(s, j + 1, hi);
      }
    }
  }

  /** Putting an inversion-fixing exchange in front of a chain from its
      result gives a chain. */
  lemma ChainCons(s: seq<int>, j: nat, t: seq<int>, snaps: seq<seq<int>>)
    requires j + 1 < |s| && s[j] > s[j + 1] && t == SwapNext(s, j) && SwapChain(t, snaps)
    ensures SwapChain(s, [t] + snaps) && LastOr(s, [t] + snaps) == LastOr(t, snaps)
  {
    assert AdjacentFix(s, t);
    assert ([t] + snaps)[1..] == snaps;
  }

  /** A pass carries the largest value of `s[..hi + 1]` to position `hi`. */
  lemma {:induction false} PassBubblesMax(s: seq<int>, j: nat, hi: nat)
    requires j <= hi < |s|
    requires forall k :: 0 <= k < j ==> s[k] <= s[j]
    ensures forall k :: 0 <= k <= hi ==> Pass(s, j, hi).final[k] <= Pass(s, j, hi).final[hi]
    decreases hi - j
  {
    if j < hi {
      var t := if s[j] > s[j + 1] then SwapNext(s, j) else s;
      assert forall k :: 0 <= k < j + 1 ==> t[k] <= t[j + 1];
      PassBubblesMax(t, j + 1, hi);
    }
  }

  /** The outer loop (lines 74-81) from pass `i`. */
  function Passes(s: seq<int>, i: nat): (r: Run)
    requires i <= |s|
    ensures |r.final| == |s|
    decreases |s| - i
  {
    if i == |s| then Run(s, [])
    else
      var p := Pass(s, 0, |s| - i - 1);
      var rest := Passes(p.final, i + 1);
      Run(rest.final, p.snaps + rest.snaps)
  }

  /** One turn of the outer loop. */
  lemma PassesNext(s: seq<int>, i: nat, p: Run, rest: Run)
    requires i < |s| && p == Pass(s, 0, |s| - i - 1) && rest == Passes(p.final, i + 1)
    ensures Passes(s, i) == Run(rest.final, p.snaps + rest.snaps)
  {
  }

  /** The passes only rearrange the values. */
  lemma {:induction false} PassesPerm(s: seq<int>, i: nat)
    requires i <= |s|
    ensures multiset(Passes(s, i).final) == multiset(s)
    decreases |s| - i
  {
    if i < |s| {
      var p := Pass(s, 0, |s| - i - 1);
      PassPerm(s, 0, |s| - i - 1);
      PassesPerm(p.final, i + 1);
      PassesNext(s, i, p, Passes(p.final, i + 1));
    }
  }

  /** The passes' snapshots, taken together, still form one exchange chain. */
  lemma {:induction false} PassesChain(s: seq<int>, i: nat)
    requires i <= |s|
    ensures SwapChain(s, Passes(s, i).snaps) && LastOr(s, Passes(s, i).snaps) == Passes(s, i).final
    decreases |s| - i
  {
    if i < |s| {
      var p := Pass(s, 0, |s| - i - 1);
      var rest := Passes(p.final, i + 1);
      PassChain(s, 0, |s| - i - 1);
      PassesChain(p.final, i + 1);
      PassesNext(s, i, p, rest);
      SwapChainAppend(s, p.snaps, rest.snaps);
      LastOrAppend(s, p.snaps, rest.snaps);
    }
  }

  /** One more pass grows the sorted tail of largest values by one. */
  lemma PassGrowsTail(s: seq<int>, hi: nat)
    requires hi < |s|
    requires SortedRange(s, hi + 1, |s|) && Split(s, hi + 1)
    ensures SortedRange(Pass(s, 0, hi).final, hi, |s|) && Split(Pass(s, 0, hi).final, hi)
  {
    var f := Pass(s, 0, hi).final;
    PassBubblesMax(s, 0, hi);
    PassPerm(s, 0, hi);
    PrefixPerm(f, s, hi + 1);
    SplitPerm(s, f, hi + 1);
  }

  /** With the last `i` positions already holding the largest values in
      order, the remaining passes sort the whole array. */
  lemma {:induction false} PassesSort(s: seq<int>, i: nat)
    requires i <= |s|
    requires SortedRange(s, |s| - i, |s|) && Split(s, |s| - i)
    ensures Sorted(Passes(s, i).final)
    decreases |s| - i
  {
    if i < |s| {
      var hi := |s| - i - 1;
      var f := Pass(s, 0, hi).final;
      assert |f| - (i + 1) == hi;
      assert SortedRange(f, hi, |f|) && Split(f, hi) by {
        PassGrowsTail(s, hi);
      }
      PassesSort(f, i + 1);
    }
  }

  /** `bubbleSort` (lines 70-85): the final array is the input sorted, and
      the emitted snapshots form a chain of inversion-fixing neighbouring
      exchanges, one per inversion of the input. */
  function Bubble(a: seq<int>): (r: Run)
    ensures Sorted(r.final) && multiset(r.final) == multiset(a)
    ensures SwapChain(a, r.snaps) && LastOr(a, r.snaps) == r.final
    ensures |r.snaps| == Inversions(a)
  {
    var r := Passes(a, 0);
    PassesPerm(a, 0);
    PassesChain(a, 0);
    PassesSort(a, 0);
    SwapChainInversions(a, r.snaps);
    SortedHasNoInversions(r.final);
    r
  }

  // The initial array of the visualizer, [10, 30, 20, 5, 40], pass by pass.

  lemma FirstPass(s: seq<int>, p: Run)
    requires s == [10, 30, 20, 5, 40] && p == Pass(s, 0, 4)
    ensures p.final == [10, 20, 5, 30, 40] && p.snaps == [[10, 20, 30, 5, 40], [10, 20, 5, 30, 40]]
  {
    var t2 := [10, 20, 5, 30, 40];
    assert SwapNext([10, 30, 20, 5, 40], 1) == [10, 20, 30, 5, 40];
    assert SwapNext([10, 20, 30, 5, 40], 2) == t2;
    assert Pass(t2, 3, 4) == Run(t2, []);
  }

  lemma SecondPass(s: seq<int>, p: Run)
    requires s == [10, 20, 5, 30, 40] && p == Pass(s, 0, 3)
    ensures p.final == [10, 5, 20, 30, 40] && p.snaps == [[10, 5, 20, 30, 40]]
  {
    var t3 := [10, 5, 20, 30, 40];
    assert SwapNext([10, 20, 5, 30, 40], 1) == t3;
    assert Pass(t3, 2, 3) == Run(t3, []);
  }

  lemma ThirdPass(s: seq<int>, p: Run)
    requires s == [10, 5, 20, 30, 40] && p == Pass(s, 0, 2)
    ensures p.final == [5, 10, 20, 30, 40] && p.snaps == [[5, 10, 20, 30, 40]]
  {
    var t4 := [5, 10, 20, 30, 40];
    assert SwapNext([10, 5, 20, 30, 40], 0) == t4;
    assert Pass(t4, 1, 2) == Run(t4, []);
  }

  lemma LastPasses(s: seq<int>)
    requires s == [5, 10, 20, 30, 40]
    ensures Passes(s, 3) == Run(s, [])
  {
    assert Pass(s, 0, 1) == Run(s, []);
    assert Pass(s, 0, 0) == Run(s, []);
    assert Passes(s, 5) == Run(s, []);
    assert Passes(s, 4) == Run(s, []);
  }

  lemma TailFromThird(s: seq<int>, r: Run)
    requires s == [10, 5, 20, 30, 40] && r == Passes(s, 2)
    ensures r.snaps == [[5, 10, 20, 30, 40]]
  {
    var p := Pass(s, 0, 2);
    ThirdPass(s, p);
    LastPasses(p.final);
    PassesNext(s, 2, p, Passes(p.final, 3));
  }

  lemma Two<T>(x: seq<T>, y: seq<T>, a: T, b: T)
    requires x == [a] && y == [b]
    ensures x + y == [a, b]
  {
  }

  lemma TailFromSecond(s: seq<int>, r: Run)
    requires s == [10, 20, 5, 30, 40] && r == Passes(s, 1)
    ensures r.snaps == [[10, 5, 20, 30, 40], [5, 10, 20, 30, 40]]
  {
    var p := Pass(s, 0, 3);
    var rest := Passes(p.final, 2);
    SecondPass(s, p);
    TailFromThird(p.final, rest);
    PassesNext(s, 1, p, rest);
    Two(p.snaps, rest.snaps, [10, 5, 20, 30, 40], [5, 10, 20, 30, 40]);
  }

  lemma Four<T>(x: seq<T>, y: seq<T>, a: T, b: T, c: T, d: T)
    requires x == [a, b] && y == [c, d]
    ensures x + y == [a, b, c, d]
  {
  }

  /** Two passes' snapshots in a row, for the first turn of the loop. */
  lemma FirstTurnSnaps(r: Run, p: Run, rest: Run, a: seq<int>, b: seq<int>, c: seq<int>, d: seq<int>)
    requires r.snaps == p.snaps + rest.snaps && p.snaps == [a, b] && rest.snaps == [c, d]
    ensures r.snaps == [a, b, c, d]
  {
    Four(p.snaps, rest.snaps, a, b, c, d);
  }

  lemma AllPasses(s: seq<int>, r: Run)
    requires s == [10, 30, 20, 5, 40] && r == Passes(s, 0)
    ensures r.snaps
         == [[10, 20, 30, 5, 40], [10, 20, 5, 30, 40], [10, 5, 20, 30, 40], [5, 10, 20, 30, 40]]
  {
    var p := Pass(s, 0, 4);
    var rest := Passes(p.final, 1);
    PassesNext(s, 0, p, rest);
    FirstPass(s, p);
    TailFromSecond(p.final, rest);
    FirstTurnSnaps(r, p, rest, [10, 20, 30, 5, 40], [10, 20, 5, 30, 40], [10, 5, 20, 30, 40], [5, 10, 20, 30, 40]);
  }

  lemma BubbleExample(a: seq<int>)
    requires a == [10, 30, 20, 5, 40]
    ensures Bubble(a).snaps
         == [[10, 20, 30, 5, 40], [10, 20, 5, 30, 40], [10, 5, 20, 30, 40], [5, 10, 20, 30, 40]]
  {
    AllPasses(a, Passes(a, 0));
  }
}
