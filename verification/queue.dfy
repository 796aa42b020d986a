/** The queue view: a sequence of strings whose first element is the front. */
module Queue {

  /** What the message line reports after an operation. */
  datatype Reply = NeedValue | Enqueued(v: string) | Empty | Dequeued(v: string) | Front(v: string) | Cleared

  datatype Outcome = Outcome(items: seq<string>, reply: Reply)

  /** `handleEnqueue` (QueueVisualizer.jsx, lines 10-18): an empty input is
      refused and the queue is left alone; anything else joins at the rear. */
  function Enqueue(q: seq<string>, v: string): (r: Outcome)
    ensures v == "" ==> r.items == q && r.reply == NeedValue
    ensures v != "" ==> |r.items| == |q| + 1 && r.items[..|q|] == q && r.items[|q|] == v
    ensures v != "" ==> r.reply == Enqueued(v)
  {
    if v == "" then Outcome(q, NeedValue) else Outcome(q + [v], Enqueued(v))
  }

  /** `handleDequeue` (lines 20-28): report and remove the front; on an
      empty queue only the message changes. */
  function Dequeue(q: seq<string>): (r: Outcome)
    ensures |q| == 0 ==> r.items == q && r.reply == Empty
    ensures |q| > 0 ==> r.reply == Dequeued(q[0]) && [q[0]] + r.items == q
  {
    if |q| == 0 then Outcome(q, Empty) else Outcome(q[1..], Dequeued(q[0]))
  }

  /** `handlePeek` (lines 30-39): report the front without changing the
      queue. */
  function Peek(q: seq<string>): (r: Reply)
    ensures |q| == 0 <==> r == Empty
    ensures |q| > 0 ==> r == Front(q[0])
  {
    if |q| == 0 then Empty else Front(q[0])
  }

  /** `handleReset` (lines 41-44). */
  function Reset(q: seq<string>): (r: Outcome)
    ensures |r.items| == 0 && r.reply == Cleared
  {
    Outcome([], Cleared)
  }

  /** Dequeue `n` times, collecting what each dequeue reports. */
  function DequeueMany(q: seq<string>, n: nat): (r: (seq<string>, seq<string>))
    ensures n <= |q| ==> |r.1| == n
    decreases n
  {
    if n == 0 then (q, [])
    else
      var o := Dequeue(q);
      var rest := DequeueMany(o.items, n - 1);
      ((rest.0), (if o.reply.Dequeued? then [o.reply.v] else []) + rest.1)
  }

  /** Dequeuing `n` values reports the first `n` values in arrival order and
      leaves the rest. */
  lemma {:induction false} DequeueManyInOrder(q: seq<string>, n: nat)
    requires n <= |q|
    ensures DequeueMany(q, n) == (q[n..], q[..n])
    decreases n
  {
    if n > 0 {
      DequeueManyInOrder(q[1..], n - 1);
      assert q[1..][n - 1..] == q[n..];
      assert q[..n] == [q[0]] + q[1..][..n - 1];
    } else {
      assert q[..0] == [];
    }
  }

  /** Dequeuing as many times as there are values empties the queue and
      reports every value in order. */
  lemma DequeueAll(q: seq<string>)
    ensures DequeueMany(q, |q|) == ([], q)
  {
    DequeueManyInOrder(q, |q|);
    assert q[..|q|] == q;
  }

  /** First in, first out: a value enqueued behind `q` is reported only
      after every value of `q`, and then the queue is empty again. */
  lemma FifoAfterEnqueue(q: seq<string>, v: string)
    requires v != ""
    ensures DequeueMany(Enqueue(q, v).items, |q| + 1) == ([], q + [v])
  {
    var w := Enqueue(q, v).items;
    assert w == q + [v];
    DequeueAll(w);
  }
}
