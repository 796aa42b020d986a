/** The traversal player of the graph view (GraphVisualizer.jsx, lines
    237-300 and 410-415): a cursor over a finished traversal order that
    manual stepping, the play/pause button and the animation timer move,
    with the visited nodes always the prefix of the order before it. */
module Playback {
  import opened Optional
  import opened Bfs

  /** The traversal state of the component: `traversalOrder`,
      `currentStep`, `visited`, whether the timer runs (`isTraversing`),
      `traversalLevels` and `edgeTraversalOrder`. */
  datatype Player = Player(order: seq<string>, step: nat, visited: seq<string>, playing: bool,
                           levels: map<string, int>, ranks: map<EdgeKey, nat>)

  /** The cursor lies within the order and `visited` is exactly the part
      of the order before it. */
  predicate Coherent(p: Player) {
    p.step <= |p.order| && p.visited == p.order[..p.step]
  }

  /** `resetTraversal` (lines 237-248): everything cleared, the timer
      stopped. The order itself is cleared too. */
  function Reset(p: Player): (r: Player)
    ensures Coherent(r) && !r.playing
    ensures r.order == [] && r.step == 0 && r.visited == []
    ensures r.levels == map[] && r.ranks == map[]
  {
    Player([], 0, [], false, map[], map[])
  }

  /** `x` clamped to `[lo, hi]`, as `Math.max(lo, Math.min(x, hi))`. */
  function Clamp(x: int, lo: int, hi: int): (r: int)
    requires lo <= hi
    ensures lo <= r <= hi
    ensures lo <= x <= hi ==> r == x
  {
    if x < lo then lo else if x > hi then hi else x
  }

  /** `stepTraversal` (lines 251-259): with an empty order nothing happens;
      otherwise the cursor moves one place, clamped to `[0, |order|]`, and
      `visited` becomes the prefix before it. */
  function Step(p: Player, forward: bool): (r: Player)
    ensures |p.order| == 0 ==> r == p
    ensures |p.order| > 0 ==> Coherent(r)
    ensures |p.order| > 0 ==> r.step == Clamp(if forward then p.step + 1 else p.step - 1, 0, |p.order|)
    ensures r.order == p.order && r.playing == p.playing && r.levels == p.levels && r.ranks == p.ranks
  {
    if |p.order| == 0 then p
    else
      var next := Clamp(if forward then p.step + 1 else p.step - 1, 0, |p.order|);
      p.(step := next, visited := p.order[..next])
  }

  /** A step forward followed by a step back returns to where the cursor
      was, when it was not already at the end. */
  lemma ForwardThenBack(p: Player)
    requires Coherent(p) && p.step < |p.order|
    ensures Step(Step(p, true), false) == p
  {
  }

  /** A step back followed by a step forward returns to where the cursor
      was, when it was not already at the start. */
  lemma BackThenForward(p: Player)
    requires Coherent(p) && 0 < p.step
    ensures Step(Step(p, false), true) == p
  {
  }

  /** Stepping is clamped: forward at the end and back at the start leave
      the player as it was. */
  lemma StepAtBounds(p: Player)
    requires Coherent(p) && |p.order| > 0
    ensures p.step == |p.order| ==> Step(p, true) == p
    ensures p.step == 0 ==> Step(p, false) == p
  {
  }

  /** The play/pause button, `toggleTraversal` (lines 262-288): a running
      player pauses; a stopped one restarts from the beginning when its
      cursor is at or past the end, then starts the timer. */
  function Toggle(p: Player): (r: Player)
    ensures r.playing <==> !p.playing
    ensures p.playing ==> r == p.(playing := false)
    ensures !p.playing && p.step >= |p.order| ==> r.step == 0 && r.visited == []
    ensures !p.playing && p.step < |p.order| ==> r == p.(playing := true)
    ensures Coherent(p) ==> Coherent(r)
    ensures r.order == p.order && r.levels == p.levels && r.ranks == p.ranks
  {
    if p.playing then p.(playing := false)
    else
      var q := if p.step >= |p.order| then p.(step := 0, visited := []) else p;
      q.(playing := true)
  }

  /** One firing of the timer started by `toggleTraversal` (lines 273-283):
      at or past the end it stops the timer and keeps the cursor;
      otherwise it reveals the next node and advances the cursor. A
      stopped player has no timer, so nothing fires. */
  function Tick(p: Player): (r: Player)
    ensures !p.playing ==> r == p
    ensures p.playing && p.step >= |p.order| ==> r == p.(playing := false)
    ensures p.playing && p.step < |p.order| ==>
      r.playing && r.step == p.step + 1 && r.visited == p.order[..p.step + 1]
    ensures Coherent(p) ==> Coherent(r)
    ensures r.order == p.order && r.levels == p.levels && r.ranks == p.ranks
  {
    if !p.playing then p
    else if p.step >= |p.order| then p.(playing := false)
    else p.(visited := p.order[..p.step + 1], step := p.step + 1)
  }

  /** `n` firings of the timer. */
  function Ticks(p: Player, n: nat): (r: Player)
    ensures Coherent(p) ==> Coherent(r)
    ensures r.order == p.order
    decreases n
  {
    if n == 0 then p else Ticks(Tick(p), n - 1)
  }

  /** A running player plays the rest of the order one node per tick, and
      the tick after the last node stops it with every node visited. */
  lemma {:induction false} PlaysThrough(p: Player)
    requires Coherent(p) && p.playing
    ensures Ticks(p, |p.order| - p.step) == p.(step := |p.order|, visited := p.order)
    ensures Tick(Ticks(p, |p.order| - p.step)) == p.(step := |p.order|, visited := p.order, playing := false)
    decreases |p.order| - p.step
  {
    if p.step < |p.order| {
      PlaysThrough(Tick(p));
    } else {
      assert p.order[..|p.order|] == p.order;
    }
  }

  /** `animateTraversal` (lines 291-300): reset, load the new traversal and
      start playing it from the beginning. */
  function Animate(p: Player, order: seq<string>, levels: map<string, int>, ranks: map<EdgeKey, nat>): (r: Player)
    ensures Coherent(r) && r.playing && r.step == 0 && r.visited == []
    ensures r.order == order && r.levels == levels && r.ranks == ranks
  {
    Toggle(Reset(p).(order := order, levels := levels, ranks := ranks))
  }

  /** `getCurrentNode` (lines 410-415): the node the cursor has just passed. */
  function CurrentNode(p: Player): (r: Option<string>)
    ensures r.Some? <==> 1 <= p.step <= |p.order|
    ensures r.Some? ==> r.value == p.order[p.step - 1]
  {
    if 0 < p.step <= |p.order| then Some(p.order[p.step - 1]) else None
  }

  /** In a coherent player the current node is the last visited one, and
      there is none before anything is visited. */
  lemma CurrentIsLastVisited(p: Player)
    requires Coherent(p)
    ensures CurrentNode(p) == None <==> p.visited == []
    ensures p.visited != [] ==> CurrentNode(p) == Some(p.visited[|p.visited| - 1])
  {
  }
}
