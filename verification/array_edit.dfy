/** The editing operations of the array view: append, delete the first
    occurrence, and search for the first occurrence. Values are the
    numbers the user typed, already parsed. */
module ArrayEdit {
  import opened Optional

  /** `array.indexOf(num)` (ArrayVisualizer.jsx, lines 35 and 59): the
      first index holding `x`, or nothing when `x` does not occur. */
  function IndexOf(a: seq<int>, x: int): (r: Option<nat>)
    ensures r.Some? <==> x in a
    ensures r.Some? ==> r.value < |a| && a[r.value] == x && forall k :: 0 <= k < r.value ==> a[k] != x
  {
    if |a| == 0 then None
    else if a[0] == x then Some(0)
    else
      match IndexOf(a[1..], x)
      case None => None
      case Some(i) => Some(i + 1)
  }

  /** `insertElement` (lines 20-29): the value goes at the end, and the
      existing elements stay as they were. */
  function Insert(a: seq<int>, x: int): (r: seq<int>)
    ensures |r| == |a| + 1 && r[..|a|] == a && r[|a|] == x
    ensures multiset(r) == multiset(a) + multiset{x}
  {
    a + [x]
  }

  /** The array after a delete and whether the value was found (the
      "deleted" versus "not found" message). */
  datatype Deletion = Deletion(arr: seq<int>, found: bool)

  /** `deleteElement` (lines 31-47): splice out the first occurrence of
      `x`; an absent value leaves the array as it is. */
  function Delete(a: seq<int>, x: int): (r: Deletion)
    ensures r.found <==> x in a
    ensures !r.found ==> r.arr == a
    ensures multiset(r.arr) == multiset(a) - multiset{x}
  {
    match IndexOf(a, x)
    case None =>
      assert multiset(a)[x] == 0;
      Deletion(a, false)
    case Some(i) =>
      RemoveAtPerm(a, i);
      Deletion(a[..i] + a[i + 1..], true)
  }

  /** What a delete removes is the first occurrence: the array splits
      around it. */
  lemma DeleteFirst(a: seq<int>, x: int, i: nat)
    requires i < |a| && a[i] == x && forall k :: 0 <= k < i ==> a[k] != x
    ensures Delete(a, x).found && Delete(a, x).arr == a[..i] + a[i + 1..]
  {
    var j := IndexOf(a, x).value;
    assert !(j < i) && !(i < j);
  }

  lemma RemoveAtPerm(a: seq<int>, i: nat)
    requires i < |a|
    ensures multiset(a[..i] + a[i + 1..]) == multiset(a) - multiset{a[i]}
  {
    assert a == a[..i] + [a[i]] + a[i + 1..];
  }

  /** Deleting a value just appended gives back the original values, and
      the original array itself when the value was not there before. */
  lemma InsertThenDelete(a: seq<int>, x: int)
    ensures Delete(Insert(a, x), x).found
    ensures multiset(Delete(Insert(a, x), x).arr) == multiset(a)
    ensures x !in a ==> Delete(Insert(a, x), x).arr == a
  {
    var b := Insert(a, x);
    assert b[|a|] == x;
    if x !in a {
      assert b[..|a|] == a;
      assert b[..|a|] + b[|a| + 1..] == a;
    }
  }
}
