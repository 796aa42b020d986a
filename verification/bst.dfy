/** The binary search tree view (TreeVisualizer.jsx): insertion with
    duplicates sent right, the three depth-first traversals, and the tree
    classifier `detectTreeType` with its height recursion and label. */
module Bst {
  import opened Optional
  import opened SortCommon

  /** `TreeNode` (lines 5-11); `Nil` stands for `null`. */
  datatype Tree = Nil | Node(left: Tree, value: int, right: Tree)

  /** The values held by a tree, with multiplicity. */
  function Elems(t: Tree): multiset<int> {
    match t
    case Nil => multiset{}
    case Node(l, v, r) => Elems(l) + multiset{v} + Elems(r)
  }

  function Size(t: Tree): nat {
    match t
    case Nil => 0
    case Node(l, _, r) => Size(l) + 1 + Size(r)
  }

  lemma {:induction false} SizeIsCount(t: Tree)
    ensures |Elems(t)| == Size(t)
  {
    if t.Node? {
      SizeIsCount(t.left);
      SizeIsCount(t.right);
    }
  }

  /** The search-tree order the insertion keeps: smaller values to the
      left of a node, values at least as large to its right. */
  predicate Ordered(t: Tree) {
    match t
    case Nil => true
    case Node(l, v, r) =>
      Ordered(l) && Ordered(r) &&
      (forall x :: x in Elems(l) ==> x < v) &&
      (forall x :: x in Elems(r) ==> v <= x)
  }

  /** `u` is `t` with nodes hung below some of its empty links: every node
      of `t` is still there with its value, at the same place. */
  predicate Extends(t: Tree, u: Tree) {
    match t
    case Nil => true
    case Node(l, v, r) => u.Node? && u.value == v && Extends(l, u.left) && Extends(r, u.right)
  }

  // ---------------------------------------------------------------------
  // Insertion

  /** `insertNode` (lines 19-35): an empty tree gets the value as its
      root; otherwise the value descends left while smaller than the node,
      right otherwise (so an equal value goes right), and becomes a new
      leaf where the path ends. */
  function Insert(t: Tree, x: int): (r: Tree)
    ensures r.Node?
    ensures Elems(r) == Elems(t) + multiset{x}
    ensures Size(r) == Size(t) + 1
  {
    match t
    case Nil => Node(Nil, x, Nil)
    case Node(l, v, rt) =>
      if x < v then Node(Insert(l, x), v, rt) else Node(l, v, Insert(rt, x))
  }

  lemma {:induction false} ExtendsSelf(t: Tree)
    ensures Extends(t, t)
  {
    if t.Node? {
      ExtendsSelf(t.left);
      ExtendsSelf(t.right);
    }
  }

  /** Insertion only hangs one new leaf below the existing nodes. */
  lemma {:induction false} InsertExtends(t: Tree, x: int)
    ensures Extends(t, Insert(t, x))
  {
    if t.Node? {
      if x < t.value {
        InsertExtends(t.left, x);
        ExtendsSelf(t.right);
      } else {
        InsertExtends(t.right, x);
        ExtendsSelf(t.left);
      }
    }
  }

  /** Insertion keeps the search-tree order. */
  lemma {:induction false} InsertOrdered(t: Tree, x: int)
    requires Ordered(t)
    ensures Ordered(Insert(t, x))
  {
    if t.Node? {
      var r := Insert(t, x);
      if x < t.value {
        InsertOrdered(t.left, x);
        assert r == Node(Insert(t.left, x), t.value, t.right);
        assert forall y :: y in Elems(r.left) ==> y in Elems(t.left) || y == x;
      } else {
        InsertOrdered(t.right, x);
        assert r == Node(t.left, t.value, Insert(t.right, x));
        assert forall y :: y in Elems(r.right) ==> y in Elems(t.right) || y == x;
      }
    }
  }

  /** Inserting a value equal to the root puts it in the right subtree. */
  lemma DuplicateGoesRight(t: Tree)
    requires t.Node?
    ensures Insert(t, t.value).left == t.left
    ensures Elems(Insert(t, t.value).right) == Elems(t.right) + multiset{t.value}
  {
  }

  /** The tree the view holds after inserting `xs` in order into `t`. */
  function InsertAll(t: Tree, xs: seq<int>): (r: Tree)
    ensures Elems(r) == Elems(t) + multiset(xs)
    decreases |xs|
  {
    if |xs| == 0 then t
    else
      assert xs == [xs[0]] + xs[1..];
      InsertAll(Insert(t, xs[0]), xs[1..])
  }

  lemma {:induction false} InsertAllExtends(t: Tree, xs: seq<int>)
    ensures Extends(t, InsertAll(t, xs))
    decreases |xs|
  {
    if |xs| == 0 {
      ExtendsSelf(t);
    } else {
      InsertExtends(t, xs[0]);
      InsertAllExtends(Insert(t, xs[0]), xs[1..]);
      ExtendsTrans(t, Insert(t, xs[0]), InsertAll(Insert(t, xs[0]), xs[1..]));
    }
  }

  lemma {:induction false} ExtendsTrans(a: Tree, b: Tree, c: Tree)
    requires Extends(a, b) && Extends(b, c)
    ensures Extends(a, c)
  {
    if a.Node? {
      ExtendsTrans(a.left, b.left, c.left);
      ExtendsTrans(a.right, b.right, c.right);
    }
  }

  lemma {:induction false} InsertAllOrdered(t: Tree, xs: seq<int>)
    requires Ordered(t)
    ensures Ordered(InsertAll(t, xs))
    decreases |xs|
  {
    if |xs| > 0 {
      InsertOrdered(t, xs[0]);
      InsertAllOrdered(Insert(t, xs[0]), xs[1..]);
    }
  }

  // ---------------------------------------------------------------------
  // Traversals

  /** The values in left-root-right order. */
  function InOrderSeq(t: Tree): (s: seq<int>)
    ensures multiset(s) == Elems(t)
    ensures |s| == Size(t)
  {
    match t
    case Nil => []
    case Node(l, v, r) => InOrderSeq(l) + [v] + InOrderSeq(r)
  }

  /** The values in root-left-right order. */
  function PreOrderSeq(t: Tree): (s: seq<int>)
    ensures multiset(s) == Elems(t)
    ensures |s| == Size(t)
    ensures t.Node? ==> s[0] == t.value
  {
    match t
    case Nil => []
    case Node(l, v, r) => [v] + PreOrderSeq(l) + PreOrderSeq(r)
  }

  /** The values in left-right-root order. */
  function PostOrderSeq(t: Tree): (s: seq<int>)
    ensures multiset(s) == Elems(t)
    ensures |s| == Size(t)
    ensures t.Node? ==> s[|s| - 1] == t.value
  {
    match t
    case Nil => []
    case Node(l, v, r) => PostOrderSeq(l) + PostOrderSeq(r) + [v]
  }

  /** `inOrder` (lines 50-56). Called on `null` the source returns
      `undefined` rather than a list, so `handleTraversal`'s `join` would
      fail on an empty tree: that case is `None`. */
  function InOrder(t: Tree): (r: Option<seq<int>>)
    ensures r.None? <==> t == Nil
    ensures r.Some? ==> multiset(r.value) == Elems(t) && |r.value| == Size(t)
  {
    if t == Nil then None else Some(InOrderSeq(t))
  }

  /** `preOrder` (lines 58-64), `None` on an empty tree. */
  function PreOrder(t: Tree): (r: Option<seq<int>>)
    ensures r.None? <==> t == Nil
    ensures r.Some? ==> multiset(r.value) == Elems(t) && |r.value| == Size(t) && r.value[0] == t.value
  {
    if t == Nil then None else Some(PreOrderSeq(t))
  }

  /** `postOrder` (lines 66-72), `None` on an empty tree. */
  function PostOrder(t: Tree): (r: Option<seq<int>>)
    ensures r.None? <==> t == Nil
    ensures r.Some? ==> multiset(r.value) == Elems(t) && |r.value| == Size(t)
    ensures r.Some? ==> r.value[|r.value| - 1] == t.value
  {
    if t == Nil then None else Some(PostOrderSeq(t))
  }

  /** Joining two ascending runs around a pivot that separates them
      gives an ascending run. */
  lemma SortedJoin(a: seq<int>, v: int, b: seq<int>)
    requires Sorted(a) && Sorted(b)
    requires forall i :: 0 <= i < |a| ==> a[i] < v
    requires forall i :: 0 <= i < |b| ==> v <= b[i]
    ensures Sorted(a + [v] + b)
  {
    var s := a + [v] + b;
    forall i, j | 0 <= i < j < |s|
      ensures s[i] <= s[j]
    {
      if j < |a| {
        assert s[i] == a[i] && s[j] == a[j];
      } else if i > |a| {
        assert s[i] == b[i - |a| - 1] && s[j] == b[j - |a| - 1];
      } else if i < |a| {
        assert s[i] == a[i];
        if j > |a| {
          assert s[j] == b[j - |a| - 1];
        }
      } else if j > |a| {
        assert s[j] == b[j - |a| - 1];
      }
    }
  }

  lemma Below(s: seq<int>, m: multiset<int>, v: int)
    requires multiset(s) == m && forall x :: x in m ==> x < v
    ensures forall i :: 0 <= i < |s| ==> s[i] < v
  {
    forall i | 0 <= i < |s|
      ensures s[i] < v
    {
      assert s[i] in multiset(s);
    }
  }

  lemma Above(s: seq<int>, m: multiset<int>, v: int)
    requires multiset(s) == m && forall x :: x in m ==> v <= x
    ensures forall i :: 0 <= i < |s| ==> v <= s[i]
  {
    forall i | 0 <= i < |s|
      ensures v <= s[i]
    {
      assert s[i] in multiset(s);
    }
  }

  /** Two ascending runs whose values lie below and from `v` on join
      around `v` into an ascending run. */
  lemma JoinRuns(a: seq<int>, v: int, b: seq<int>, ma: multiset<int>, mb: multiset<int>)
    requires Sorted(a) && Sorted(b) && multiset(a) == ma && multiset(b) == mb
    requires forall x :: x in ma ==> x < v
    requires forall x :: x in mb ==> v <= x
    ensures Sorted(a + [v] + b)
  {
    Below(a, ma, v);
    Above(b, mb, v);
    SortedJoin(a, v, b);
  }

  /** At an ordered node, ascending readings of both subtrees join into
      an ascending reading of the node. */
  lemma InOrderJoin(t: Tree)
    requires Ordered(t) && t.Node? && Sorted(InOrderSeq(t.left)) && Sorted(InOrderSeq(t.right))
    ensures Sorted(InOrderSeq(t))
  {
    JoinRuns(InOrderSeq(t.left), t.value, InOrderSeq(t.right), Elems(t.left), Elems(t.right));
  }

  /** An ordered tree lists its values in ascending order. */
  lemma {:induction false} InOrderSorted(t: Tree)
    requires Ordered(t)
    ensures Sorted(InOrderSeq(t))
  {
    if t.Node? {
      InOrderSorted(t.left);
      InOrderSorted(t.right);
      InOrderJoin(t);
    }
  }

  /** Inserting values one after another into an empty tree and reading
      it in order sorts them: the result ascends and holds exactly the
      inserted values. */
  lemma InOrderOfInserts(xs: seq<int>)
    ensures InOrder(InsertAll(Nil, xs)).None? <==> xs == []
    ensures xs != [] ==> Sorted(InOrder(InsertAll(Nil, xs)).value)
    ensures xs != [] ==> multiset(InOrder(InsertAll(Nil, xs)).value) == multiset(xs)
  {
    InsertAllOrdered(Nil, xs);
    InOrderSorted(InsertAll(Nil, xs));
    if xs == [] {
      assert InsertAll(Nil, xs) == Nil;
    } else {
      assert xs[0] in multiset(xs);
    }
  }

  // ---------------------------------------------------------------------
  // Classification

  /** `height` (lines 96-99). */
  function Height(t: Tree): nat {
    match t
    case Nil => 0
    case Node(l, _, r) => 1 + Max(Height(l), Height(r))
  }

  function Max(a: int, b: int): int {
    if a < b then b else a
  }

  function Pow2(n: nat): (p: nat)
    ensures p >= 1
  {
    if n == 0 then 1 else 2 * Pow2(n - 1)
  }

  /** A tree of height `h` has at least `h` and fewer than `2^h` nodes. */
  lemma {:induction false} HeightBounds(t: Tree)
    ensures Height(t) <= Size(t) < Pow2(Height(t))
    ensures t == Nil <==> Height(t) == 0
  {
    if t.Node? {
      HeightBounds(t.left);
      HeightBounds(t.right);
      PowMono(Height(t.left), Height(t) - 1);
      PowMono(Height(t.right), Height(t) - 1);
    }
  }

  lemma {:induction false} PowMono(a: nat, b: nat)
    requires a <= b
    ensures Pow2(a) <= Pow2(b)
    decreases b
  {
    if a < b {
      PowMono(a, b - 1);
    }
  }

  /** Every node's subtrees differ in height by at most one. */
  predicate Balanced(t: Tree) {
    match t
    case Nil => true
    case Node(l, _, r) =>
      Balanced(l) && Balanced(r) && -1 <= Height(l) - Height(r) <= 1
  }

  /** No node has exactly one child. */
  predicate Full(t: Tree) {
    match t
    case Nil => true
    case Node(l, _, r) => Full(l) && Full(r) && (l == Nil <==> r == Nil)
  }

  /** Some node has a right child but no left child. */
  predicate LoneRight(t: Tree) {
    match t
    case Nil => false
    case Node(l, _, r) => LoneRight(l) || LoneRight(r) || (l == Nil && r != Nil)
  }

  /** Some node lacks a child. */
  predicate MissesChild(t: Tree) {
    t.Node? && (t.left == Nil || t.right == Nil || MissesChild(t.left) || MissesChild(t.right))
  }

  /** A non-empty tree has a node that lacks a child: follow the left
      children down to the last one. */
  lemma {:induction false} NonEmptyMissesChild(t: Tree)
    requires t != Nil
    ensures MissesChild(t)
  {
    if t.left != Nil {
      NonEmptyMissesChild(t.left);
    }
  }

  /** The flags `detectTreeType` threads through its `check` walk. */
  datatype Flags = Flags(full: bool, complete: bool, balanced: bool, foundNullChild: bool)

  /** `check` (lines 103-116): a post-order walk that returns the height of
      the subtree and updates the flags at each node after its children,
      in the source's order. The complete flag ends up meaning "full":
      below a lone left child there is always a leaf, which has already
      raised `foundNullChild` by the time the parent is checked. */
  function Check(t: Tree, f: Flags): (r: (nat, Flags))
    ensures r.0 == Height(t)
    ensures r.1.balanced == (f.balanced && Balanced(t))
    ensures r.1.full == (f.full && Full(t))
    ensures r.1.foundNullChild == (f.foundNullChild || MissesChild(t))
    ensures r.1.complete == (f.complete && Full(t))
    ensures LoneRight(t) ==> !r.1.complete
  {
    match t
    case Nil => (0, f)
    case Node(l, v, rt) =>
      var (lh, f1) := Check(l, f);
      var (rh, f2) := Check(rt, f1);
      assert l != Nil ==> MissesChild(l) by {
        if l != Nil {
          NonEmptyMissesChild(l);
        }
      }
      var balanced := f2.balanced && !(lh - rh > 1 || rh - lh > 1);
      var complete :=
        if l != Nil && rt == Nil then f2.complete && !f2.foundNullChild
        else if l == Nil && rt != Nil then false
        else f2.complete;
      var full := if (l != Nil) != (rt != Nil) then false else f2.full;
      var found := f2.foundNullChild || l == Nil || rt == Nil;
      (1 + Max(lh, rh), Flags(full, complete, balanced, found))
  }

  /** The label's three parts (lines 120-123): "Binary Tree", replaced by
      "Full Binary Tree" when full, then the complete and balanced
      suffixes in that order. */
  function Label(full: bool, complete: bool, balanced: bool): (s: string)
    ensures |s| >= 11
    ensures full <==> s[0] == 'F'
  {
    (if full then "Full Binary Tree" else "Binary Tree") +
    (if complete then " | Complete Binary Tree" else "") +
    (if balanced then " | Balanced Binary Tree" else "")
  }

  /** The label can be read back: it starts with "F" exactly when full,
      has "C" four characters after the base name exactly when complete,
      and runs 23 characters past that part exactly when balanced. */
  lemma LabelReads(f: bool, c: bool, b: bool, s: string)
    requires s == Label(f, c, b)
    ensures f <==> s[0] == 'F'
    ensures c <==> |s| > (if f then 16 else 11) + 3 && s[(if f then 16 else 11) + 3] == 'C'
    ensures b <==> |s| == (if f then 16 else 11) + (if c then 23 else 0) + 23
  {
  }

  /** Different flags give different labels. */
  lemma LabelDistinguishes(f1: bool, c1: bool, b1: bool, f2: bool, c2: bool, b2: bool)
    requires Label(f1, c1, b1) == Label(f2, c2, b2)
    ensures f1 == f2 && c1 == c2 && b1 == b2
  {
    LabelReads(f1, c1, b1, Label(f1, c1, b1));
    LabelReads(f2, c2, b2, Label(f2, c2, b2));
  }

  /** The flags `detectTreeType` starts `check` with. */
  const Start := Flags(true, true, true, false)

  /** Whether the source's walk reports the tree complete: exactly when it
      is full. */
  function CompleteFlag(t: Tree): (r: bool)
    ensures r == Full(t)
  {
    Check(t, Start).1.complete
  }

  /** `detectTreeType` (lines 83-126): the empty string for an empty tree,
      otherwise the label of the flags `check` leaves: full and balanced
      exactly when the tree is, and "Complete" exactly when it is full. */
  function Detect(t: Tree): (s: string)
    ensures t == Nil <==> s == ""
    ensures t != Nil ==> s == Label(Full(t), Full(t), Balanced(t))
  {
    if t == Nil then ""
    else
      var (_, f) := Check(t, Start);
      Label(f.full, f.complete, f.balanced)
  }

  // ---------------------------------------------------------------------
  // Completeness

  /** Every level is full. */
  predicate Perfect(t: Tree) {
    match t
    case Nil => true
    case Node(l, _, r) => Perfect(l) && Perfect(r) && Height(l) == Height(r)
  }

  /** Every level is full except perhaps the last, which fills from the
      left: either the left subtree is perfect and the right one complete
      of the same height, or the left one complete and one level taller
      than a perfect right one. */
  predicate Complete(t: Tree) {
    match t
    case Nil => true
    case Node(l, _, r) =>
      (Perfect(l) && Complete(r) && Height(l) == Height(r)) ||
      (Complete(l) && Perfect(r) && Height(l) == Height(r) + 1)
  }

  predicate Leaf(t: Tree) {
    t.Node? && t.left == Nil && t.right == Nil
  }

  /** At a leaf `check` only records the missing children. */
  lemma LeafCheck(t: Tree, f: Flags)
    requires Leaf(t)
    ensures Check(t, f) == (1, f.(foundNullChild := true))
  {
    assert Check(t.left, f) == (0, f);
  }

  /** The source's walk calls a root with a single left leaf incomplete,
      though the tree is complete: the leaf has already raised
      `foundNullChild` when the root is checked. */
  lemma LeftLeafMisjudged(t: Tree)
    requires t.Node? && Leaf(t.left) && t.right == Nil
    ensures Complete(t) && !CompleteFlag(t)
  {
    var f1 := Check(t.left, Start).1;
    assert f1.foundNullChild;
    assert Check(t.right, f1) == (0, f1);
  }

  /** It calls a tree complete whose left child is a leaf while the right
      child has two leaves, though the last level does not fill from the
      left: `foundNullChild` is raised in post-order, not level order, and
      a missing child only counts against a later lone left child. */
  lemma LeafBesideFullMisjudged(t: Tree)
    requires t.Node? && Leaf(t.left) && t.right.Node? && Leaf(t.right.left) && Leaf(t.right.right)
    ensures !Complete(t) && CompleteFlag(t)
  {
    assert Height(t.left) == 1 && Height(t.right) == 2;
    LeafCheck(t.left, Start);
    var f1 := Start.(foundNullChild := true);
    LeafCheck(t.right.left, f1);
    LeafCheck(t.right.right, f1);
    assert Check(t.right, f1).1.complete;
  }

  /** The shape of a subtree, computed bottom-up in the same post-order
      walk as `check`: its height, whether it is perfect, whether it is
      complete. */
  function Shape(t: Tree): (r: (nat, bool, bool))
    ensures r.0 == Height(t) && r.1 == Perfect(t) && r.2 == Complete(t)
  {
    match t
    case Nil => (0, true, true)
    case Node(l, _, rt) =>
      var (lh, lp, lc) := Shape(l);
      var (rh, rp, rc) := Shape(rt);
      (1 + Max(lh, rh),
       lp && rp && lh == rh,
       (lp && rc && lh == rh) || (lc && rp && lh == rh + 1))
  }

  /** `detectTreeType` with the completeness part corrected: full and
      balanced as before, complete by the tree's shape. */
  function DetectFixed(t: Tree): (s: string)
    ensures t == Nil <==> s == ""
    ensures t != Nil ==> s == Label(Full(t), Complete(t), Balanced(t))
  {
    if t == Nil then ""
    else
      var (_, f) := Check(t, Start);
      Label(f.full, Shape(t).2, f.balanced)
  }

  lemma {:induction false} PerfectIsComplete(t: Tree)
    requires Perfect(t)
    ensures Complete(t)
  {
    if t.Node? {
      PerfectIsComplete(t.right);
    }
  }

  /** A complete tree has no node with a right child but no left child,
      the one case the source's walk rules out on its own. */
  lemma {:induction false} CompleteHasNoLoneRight(t: Tree)
    requires Complete(t)
    ensures !LoneRight(t)
  {
    if t.Node? {
      if Perfect(t.left) && Complete(t.right) && Height(t.left) == Height(t.right) {
        PerfectIsComplete(t.left);
        CompleteHasNoLoneRight(t.left);
        CompleteHasNoLoneRight(t.right);
        HeightBounds(t.left);
        HeightBounds(t.right);
      } else {
        PerfectIsComplete(t.right);
        CompleteHasNoLoneRight(t.left);
        CompleteHasNoLoneRight(t.right);
        HeightBounds(t.left);
      }
    }
  }

  lemma {:induction false} PerfectSize(t: Tree)
    requires Perfect(t)
    ensures Size(t) + 1 == Pow2(Height(t))
  {
    if t.Node? {
      PerfectSize(t.left);
      PerfectSize(t.right);
    }
  }

  /** A complete tree leaves no gap above its last level: with height
      `h > 0` it holds at least `2^(h-1)` nodes. */
  lemma {:induction false} CompleteIsDense(t: Tree)
    requires Complete(t) && t != Nil
    ensures Pow2(Height(t) - 1) <= Size(t)
  {
    var l, r := t.left, t.right;
    if Perfect(l) && Complete(r) && Height(l) == Height(r) {
      PerfectSize(l);
    } else {
      PerfectSize(r);
      if l != Nil {
        CompleteIsDense(l);
      }
    }
  }

  /** The corrected label on the two trees the source misjudges: the
      first is complete and balanced but not full, the second full and
      balanced but not complete. */
  lemma DetectFixedExamples(t1: Tree, t2: Tree)
    requires t1.Node? && Leaf(t1.left) && t1.right == Nil
    requires t2.Node? && Leaf(t2.left) && t2.right.Node? && Leaf(t2.right.left) && Leaf(t2.right.right)
    ensures DetectFixed(t1) == Label(false, true, true) != Detect(t1)
    ensures DetectFixed(t2) == Label(true, false, true) != Detect(t2)
  {
    LeftLeafMisjudged(t1);
    LeafBesideFullMisjudged(t2);
    assert !Full(t1) && Balanced(t1);
    assert Full(t2.left) && Full(t2.right) && Balanced(t2.right);
    assert Full(t2) && Balanced(t2);
    if Detect(t1) == Label(false, true, true) {
      LabelDistinguishes(false, false, true, false, true, true);
    }
    if Detect(t2) == Label(true, false, true) {
      LabelDistinguishes(true, true, true, true, false, true);
    }
  }
}

/** A worked example: inserting 5, 3, 8, 1, 4, 7, 9 into an empty tree
    gives the perfect tree of height 3, read in order as 1, 3, 4, 5, 7, 8,
    9, in pre-order as 5, 3, 1, 4, 8, 7, 9 and in post-order as 1, 4, 3,
    7, 9, 8, 5, and classified full, complete and balanced. */
module BstExample {
  import opened Optional
  import opened Bst

  // The tree after each of the seven insertions.
  function T1(): Tree { Node(Nil, 5, Nil) }
  function T2(): Tree { Node(Node(Nil, 3, Nil), 5, Nil) }
  function T3(): Tree { Node(Node(Nil, 3, Nil), 5, Node(Nil, 8, Nil)) }
  function T4(): Tree { Node(Node(Node(Nil, 1, Nil), 3, Nil), 5, Node(Nil, 8, Nil)) }
  function T5(): Tree { Node(Node(Node(Nil, 1, Nil), 3, Node(Nil, 4, Nil)), 5, Node(Nil, 8, Nil)) }
  function T6(): Tree { Node(Node(Node(Nil, 1, Nil), 3, Node(Nil, 4, Nil)), 5, Node(Node(Nil, 7, Nil), 8, Nil)) }
  function T7(): Tree { Node(Node(Node(Nil, 1, Nil), 3, Node(Nil, 4, Nil)), 5, Node(Node(Nil, 7, Nil), 8, Node(Nil, 9, Nil))) }

  /** Inserting the head of `xs` into `t` gives `u`, so inserting all of
      `xs` into `t` is inserting the rest into `u`. */
  lemma Chain(t: Tree, xs: seq<int>, u: Tree)
    requires |xs| > 0 && Insert(t, xs[0]) == u
    ensures InsertAll(t, xs) == InsertAll(u, xs[1..])
  {
  }

  // Each insertion in turn.
  lemma Grow1() ensures Insert(Nil, 5) == T1() {}
  lemma Grow2() ensures Insert(T1(), 3) == T2() {}
  lemma Grow3() ensures Insert(T2(), 8) == T3() {}
  lemma Grow4() ensures Insert(T3(), 1) == T4() {}
  lemma Grow5() ensures Insert(T4(), 4) == T5() {}
  lemma Grow6() ensures Insert(T5(), 7) == T6() {}
  lemma Grow7() ensures Insert(T6(), 9) == T7() {}

  // Inserting the remaining values after each step.
  lemma Rest7(ys: seq<int>)
    requires ys == [9]
    ensures InsertAll(T6(), ys) == T7()
  {
    Grow7();
    Chain(T6(), ys, T7());
    assert ys[1..] == [];
  }

  lemma Rest6(ys: seq<int>)
    requires ys == [7, 9]
    ensures InsertAll(T5(), ys) == T7()
  {
    Grow6();
    Chain(T5(), ys, T6());
    assert ys[1..] == [9];
    Rest7(ys[1..]);
  }

  lemma Rest5(ys: seq<int>)
    requires ys == [4, 7, 9]
    ensures InsertAll(T4(), ys) == T7()
  {
    Grow5();
    Chain(T4(), ys, T5());
    assert ys[1..] == [7, 9];
    Rest6(ys[1..]);
  }

  lemma Rest4(ys: seq<int>)
    requires ys == [1, 4, 7, 9]
    ensures InsertAll(T3(), ys) == T7()
  {
    Grow4();
    Chain(T3(), ys, T4());
    assert ys[1..] == [4, 7, 9];
    Rest5(ys[1..]);
  }

  lemma Rest3(ys: seq<int>)
    requires ys == [8, 1, 4, 7, 9]
    ensures InsertAll(T2(), ys) == T7()
  {
    Grow3();
    Chain(T2(), ys, T3());
    assert ys[1..] == [1, 4, 7, 9];
    Rest4(ys[1..]);
  }

  lemma Rest2(ys: seq<int>)
    requires ys == [3, 8, 1, 4, 7, 9]
    ensures InsertAll(T1(), ys) == T7()
  {
    Grow2();
    Chain(T1(), ys, T2());
    assert ys[1..] == [8, 1, 4, 7, 9];
    Rest3(ys[1..]);
  }

  lemma Rest1(ys: seq<int>)
    requires ys == [5, 3, 8, 1, 4, 7, 9]
    ensures InsertAll(Nil, ys) == T7()
  {
    Grow1();
    Chain(Nil, ys, T1());
    assert ys[1..] == [3, 8, 1, 4, 7, 9];
    Rest2(ys[1..]);
  }

  /** A node with two leaves: `check` sets `foundNullChild` and keeps the
      other flags. */
  predicate Cherry(t: Tree) {
    t.Node? && Leaf(t.left) && Leaf(t.right)
  }

  lemma CherryCheck(t: Tree, f: Flags)
    requires Cherry(t)
    ensures Check(t, f) == (2, f.(foundNullChild := true))
  {
    LeafCheck(t.left, f);
    LeafCheck(t.right, f.(foundNullChild := true));
  }

  /** A root over two cherries is labelled full, complete and balanced. */
  lemma CherriesDetected(t: Tree)
    requires t.Node? && Cherry(t.left) && Cherry(t.right)
    ensures Detect(t) == Label(true, true, true)
  {
    CherryCheck(t.left, Start);
    CherryCheck(t.right, Start.(foundNullChild := true));
  }

  /** The three readings of a leaf. */
  lemma LeafOrders(t: Tree)
    requires Leaf(t)
    ensures InOrderSeq(t) == [t.value] && PreOrderSeq(t) == [t.value] && PostOrderSeq(t) == [t.value]
  {
    assert InOrderSeq(t.left) == [] && PreOrderSeq(t.left) == [] && PostOrderSeq(t.left) == [];
  }

  /** Three singletons joined in order. */
  lemma Three(x: seq<int>, y: seq<int>, z: seq<int>, a: int, b: int, c: int)
    requires x == [a] && y == [b] && z == [c]
    ensures x + y + z == [a, b, c]
  {
  }

  /** The three readings of a cherry. */
  lemma CherryOrders(t: Tree)
    requires Cherry(t)
    ensures InOrderSeq(t) == [t.left.value, t.value, t.right.value]
    ensures PreOrderSeq(t) == [t.value, t.left.value, t.right.value]
    ensures PostOrderSeq(t) == [t.left.value, t.right.value, t.value]
  {
    var l, v, r := t.left, t.value, t.right;
    LeafOrders(l);
    LeafOrders(r);
    Three(InOrderSeq(l), [v], InOrderSeq(r), l.value, v, r.value);
    Three([v], PreOrderSeq(l), PreOrderSeq(r), v, l.value, r.value);
    Three(PostOrderSeq(l), PostOrderSeq(r), [v], l.value, r.value, v);
  }

  /** Two runs of three around a middle value, in the three orders. */
  lemma Seven(x: seq<int>, y: seq<int>, a: int, b: int, c: int, v: int, d: int, e: int, f: int)
    requires x == [a, b, c] && y == [d, e, f]
    ensures x + [v] + y == [a, b, c, v, d, e, f]
    ensures [v] + x + y == [v, a, b, c, d, e, f]
    ensures x + y + [v] == [a, b, c, d, e, f, v]
  {
  }

  /** The three readings of a root over two cherries. */
  lemma CherriesOrders(t: Tree, a: int, b: int, c: int, d: int, e: int, f: int)
    requires t.Node? && Cherry(t.left) && Cherry(t.right)
    requires a == t.left.left.value && b == t.left.value && c == t.left.right.value
    requires d == t.right.left.value && e == t.right.value && f == t.right.right.value
    ensures InOrderSeq(t) == [a, b, c, t.value, d, e, f]
    ensures PreOrderSeq(t) == [t.value, b, a, c, e, d, f]
    ensures PostOrderSeq(t) == [a, c, b, d, f, e, t.value]
  {
    var l, v, r := t.left, t.value, t.right;
    CherryOrders(l);
    CherryOrders(r);
    Seven(InOrderSeq(l), InOrderSeq(r), a, b, c, v, d, e, f);
    Seven(PreOrderSeq(l), PreOrderSeq(r), b, a, c, v, e, d, f);
    Seven(PostOrderSeq(l), PostOrderSeq(r), a, c, b, v, d, f, e);
  }

  /** The example's shape: a root 5 over the cherries 1-3-4 and 7-8-9. */
  predicate IsExample(t: Tree) {
    t.Node? && Cherry(t.left) && Cherry(t.right) && t.value == 5 &&
    t.left.left.value == 1 && t.left.value == 3 && t.left.right.value == 4 &&
    t.right.left.value == 7 && t.right.value == 8 && t.right.right.value == 9
  }

  /** Inserting 5, 3, 8, 1, 4, 7, 9 into the empty tree builds the
      example. */
  lemma Builds(xs: seq<int>, t: Tree)
    requires xs == [5, 3, 8, 1, 4, 7, 9] && t == InsertAll(Nil, xs)
    ensures IsExample(t)
  {
    Rest1(xs);
    ExampleShape(t);
  }

  lemma ExampleShape(t: Tree)
    requires t == T7()
    ensures IsExample(t)
  {
  }

  /** The example's in-order reading. */
  lemma ExampleInOrder(t: Tree)
    requires IsExample(t)
    ensures InOrder(t) == Some([1, 3, 4, 5, 7, 8, 9])
  {
    CherriesOrders(t, 1, 3, 4, 7, 8, 9);
  }

  /** The example's pre-order reading. */
  lemma ExamplePreOrder(t: Tree)
    requires IsExample(t)
    ensures PreOrder(t) == Some([5, 3, 1, 4, 8, 7, 9])
  {
    CherriesOrders(t, 1, 3, 4, 7, 8, 9);
  }

  /** The example's post-order reading. */
  lemma ExamplePostOrder(t: Tree)
    requires IsExample(t)
    ensures PostOrder(t) == Some([1, 4, 3, 7, 9, 8, 5])
  {
    CherriesOrders(t, 1, 3, 4, 7, 8, 9);
  }

  /** The tree built from 5, 3, 8, 1, 4, 7, 9 reads 1, 3, 4, 5, 7, 8, 9 in
      order, 5, 3, 1, 4, 8, 7, 9 in pre-order and 1, 4, 3, 7, 9, 8, 5 in
      post-order, and is labelled full, complete and balanced. */
  lemma InsertedExample(xs: seq<int>, t: Tree)
    requires xs == [5, 3, 8, 1, 4, 7, 9] && t == InsertAll(Nil, xs)
    ensures InOrder(t) == Some([1, 3, 4, 5, 7, 8, 9])
    ensures PreOrder(t) == Some([5, 3, 1, 4, 8, 7, 9])
    ensures PostOrder(t) == Some([1, 4, 3, 7, 9, 8, 5])
    ensures Detect(t) == Label(true, true, true)
  {
    Builds(xs, t);
    ExampleInOrder(t);
    ExamplePreOrder(t);
    ExamplePostOrder(t);
    CherriesDetected(t);
  }
}
