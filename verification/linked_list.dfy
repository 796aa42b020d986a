/** The linked list view: a sequence of numbers drawn as nodes joined by
    arrows, with an optional highlighted position during a walk. */
module LinkedList {
  import opened Optional

  /** The list a fresh view starts with (LinkedListVisualizer.jsx, line 5). */
  const Initial: seq<int> := [10, 20, 30]

  /** `insertAtEnd` (lines 9-12). The random draw `Math.floor(Math.random() * 100)`
      is the parameter `draw`, an integer in `[0, 100)`; the appended value is
      `draw + 1`. */
  function InsertAtEnd(l: seq<int>, draw: nat): (r: seq<int>)
    requires draw < 100
    ensures |r| == |l| + 1 && r[..|l|] == l
    ensures 1 <= r[|l|] <= 100
  {
    l + [draw + 1]
  }

  /** `deleteFromEnd` (lines 14-17): drop the last node; nothing happens to
      an empty list. */
  function DeleteFromEnd(l: seq<int>): (r: seq<int>)
    ensures |l| == 0 ==> r == l
    ensures |l| > 0 ==> |r| == |l| - 1 && r + [l[|l| - 1]] == l
  {
    if |l| == 0 then l else l[..|l| - 1]
  }

  /** Deleting right after an insertion gives back the list. */
  lemma InsertThenDelete(l: seq<int>, draw: nat)
    requires draw < 100
    ensures DeleteFromEnd(InsertAtEnd(l, draw)) == l
  {
  }

  /** One rendered moment of a walk: which node is highlighted and whether
      the walk is still in progress. */
  datatype Frame = Frame(active: Option<nat>, traversing: bool)

  /** The frames from position `i` on: one per remaining node, then the
      closing frame with nothing highlighted. */
  function WalkFrom(n: nat, i: nat): (r: seq<Frame>)
    requires i <= n
    ensures |r| == n - i + 1
    ensures forall k :: 0 <= k < n - i ==> r[k] == Frame(Some(i + k), true)
    ensures r[n - i] == Frame(None, false)
    decreases n - i
  {
    if i == n then [Frame(None, false)]
    else [Frame(Some(i), true)] + WalkFrom(n, i + 1)
  }

  /** `traverseList` (lines 19-27): highlight every node once, front to back,
      then clear the highlight and leave traversing mode. The half-second
      pause between frames is not modelled. */
  function Traverse(l: seq<int>): (r: seq<Frame>)
    ensures |r| == |l| + 1
    ensures forall k :: 0 <= k < |l| ==> r[k].active == Some(k) && r[k].traversing
    ensures r[|l|] == Frame(None, false)
  {
    WalkFrom(|l|, 0)
  }

  /** Every node is visited exactly once: a position is highlighted in some
      frame exactly when it is a position of the list. */
  lemma TraverseVisitsEachOnce(l: seq<int>, p: nat)
    ensures (exists k :: 0 <= k < |Traverse(l)| && Traverse(l)[k].active == Some(p)) <==> p < |l|
    ensures forall k, k' :: 0 <= k < k' < |Traverse(l)| && Traverse(l)[k].active == Some(p) ==> Traverse(l)[k'].active != Some(p)
  {
    var r := Traverse(l);
    if p < |l| {
      assert r[p].active == Some(p);
    }
  }
}
