/** The stack view: a sequence of strings whose last element is the top. */
module Stack {

  /** What the message line reports after an operation. */
  datatype Reply = NeedValue | Pushed(v: string) | Empty | Popped(v: string) | Peeked(v: string) | Cleared

  datatype Outcome = Outcome(items: seq<string>, reply: Reply)

  /** `handlePush` (StackVisualizer.jsx, lines 10-18): an empty input is
      refused and the stack is left alone; anything else becomes the new
      top. */
  function Push(st: seq<string>, v: string): (r: Outcome)
    ensures v == "" ==> r.items == st && r.reply == NeedValue
    ensures v != "" ==> |r.items| == |st| + 1 && r.items[..|st|] == st && r.items[|st|] == v
    ensures v != "" ==> r.reply == Pushed(v)
  {
    if v == "" then Outcome(st, NeedValue) else Outcome(st + [v], Pushed(v))
  }

  /** `handlePop` (lines 20-28): report and remove the top; on an empty
      stack only the message changes. */
  function Pop(st: seq<string>): (r: Outcome)
    ensures |st| == 0 ==> r.items == st && r.reply == Empty
    ensures |st| > 0 ==> r.reply == Popped(st[|st| - 1]) && r.items + [st[|st| - 1]] == st
  {
    if |st| == 0 then Outcome(st, Empty) else Outcome(st[..|st| - 1], Popped(st[|st| - 1]))
  }

  /** `handlePeek` (lines 30-39): report the top without changing the
      stack. */
  function Peek(st: seq<string>): (r: Reply)
    ensures |st| == 0 <==> r == Empty
    ensures |st| > 0 ==> r == Peeked(st[|st| - 1])
  {
    if |st| == 0 then Empty else Peeked(st[|st| - 1])
  }

  /** `handleReset` (lines 41-44). The queue view's reset is the same
      (`Queue.Reset`); each view keeps its own, as the two files do. */
  function Reset(st: seq<string>): (r: Outcome)
    ensures |r.items| == 0 && r.reply == Cleared
  {
    Outcome([], Cleared)
  }

  /** Last in, first out: popping right after a push returns the pushed
      value and gives back the original stack. */
  lemma PushThenPop(st: seq<string>, v: string)
    requires v != ""
    ensures Pop(Push(st, v).items) == Outcome(st, Popped(v))
  {
    assert (st + [v])[..|st|] == st;
  }

  /** Pop `n` times, collecting what each pop reports. */
  function PopMany(st: seq<string>, n: nat): (r: (seq<string>, seq<string>))
    ensures n <= |st| ==> |r.1| == n
    decreases n
  {
    if n == 0 then (st, [])
    else
      var o := Pop(st);
      var rest := PopMany(o.items, n - 1);
      (rest.0, (if o.reply.Popped? then [o.reply.v] else []) + rest.1)
  }

  /** The values of `s` from last to first. */
  function Reverse(s: seq<string>): (r: seq<string>)
    ensures |r| == |s|
    ensures forall i :: 0 <= i < |s| ==> r[i] == s[|s| - 1 - i]
  {
    if |s| == 0 then [] else [s[|s| - 1]] + Reverse(s[..|s| - 1])
  }

  /** One step of `PopMany` on a non-empty stack: the top is reported
      first, then the rest of the pops run on the stack below it. */
  lemma PopManyStep(st: seq<string>, n: nat, rest: (seq<string>, seq<string>))
    requires 0 < n <= |st| && rest == PopMany(st[..|st| - 1], n - 1)
    ensures PopMany(st, n) == (rest.0, [st[|st| - 1]] + rest.1)
  {
  }

  /** The slices of the stack below the top that the step of
      `PopManyReverses` needs. */
  lemma BelowTop(st: seq<string>, n: nat, p: seq<string>, u: seq<string>)
    requires 0 < n <= |st| && p == st[..|st| - 1] && u == st[|st| - n..]
    ensures p[..|p| - (n - 1)] == st[..|st| - n]
    ensures p[|p| - (n - 1)..] == u[..|u| - 1]
    ensures u[|u| - 1] == st[|st| - 1]
  {
  }

  /** Popping `n` values reports the top `n` values in reverse order and
      leaves the rest. */
  lemma {:induction false} PopManyReverses(st: seq<string>, n: nat)
    requires n <= |st|
    ensures PopMany(st, n) == (st[..|st| - n], Reverse(st[|st| - n..]))
    decreases n
  {
    if n > 0 {
      var p := st[..|st| - 1];
      var u := st[|st| - n..];
      PopManyReverses(p, n - 1);
      PopManyStep(st, n, PopMany(p, n - 1));
      BelowTop(st, n, p, u);
      assert Reverse(u) == [u[|u| - 1]] + Reverse(u[..|u| - 1]);
    } else {
      assert st[..|st|] == st;
    }
  }
}
