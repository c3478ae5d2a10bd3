/**
 * Clients of `OkList`: the scenarios of the list's unit tests, each proved
 * for the concrete values they use, and the general properties those
 * scenarios are instances of (LIFO order, head-to-tail traversal).
 */
module OkListScenarios {
  import opened OkList

  /** Pushing `xs` in order and then popping as often yields `xs` reversed, then None. */
  method PushAllPopAll<T>(xs: seq<T>) returns (popped: seq<T>, last: Option<T>)
    ensures |popped| == |xs|
    ensures forall i :: 0 <= i < |xs| ==> popped[i] == xs[|xs| - 1 - i]
    ensures last == None
  {
    var l := new List<T>();
    var i := 0;
    while i < |xs|
      invariant 0 <= i <= |xs| && l.Valid()
      invariant |l.Contents| == i
      invariant forall j :: 0 <= j < i ==> l.Contents[j] == xs[i - 1 - j]
    {
      l.Push(xs[i]);
      i := i + 1;
    }
    popped := [];
    while |popped| < |xs|
      invariant l.Valid() && |popped| + |l.Contents| == |xs|
      invariant forall j :: 0 <= j < |xs| ==> (popped + l.Contents)[j] == xs[|xs| - 1 - j]
    {
      ghost var before := l.Contents;
      var r := l.Pop();
      assert popped + before == (popped + [r.value]) + l.Contents;
      popped := popped + [r.value];
    }
    assert popped + l.Contents == popped;
    last := l.Pop();
  }

  /** `push` then `pop` returns the pushed element and restores the contents. */
  method PushThenPop<T>(l: List<T>, x: T) returns (r: Option<T>)
    requires l.Valid()
    modifies l
    ensures l.Valid() && r == Some(x) && l.Contents == old(l.Contents)
  {
    l.Push(x);
    r := l.Pop();
  }

  /** Draining a read-only cursor yields the contents head to tail and changes nothing. */
  method IterCollect<T>(l: List<T>) returns (out: seq<T>, after: Option<T>)
    requires l.Valid()
    ensures out == l.Contents
    ensures after == None
  {
    var it := l.Iter();
    out := [];
    while true
      invariant it.Valid() && it.list == l
      invariant out == l.Contents[..it.pos]
      decreases |l.spine| - it.pos
    {
      ghost var contents := l.Contents;
      var r := it.Next();
      if r.None? {
        break;
      }
      assert contents[..it.pos] == contents[..it.pos - 1] + [r.value];
      out := out + [r.value];
    }
    after := it.Next();
  }

  /** A mutable cursor hands out every node of the list once, head to tail. */
  method IterMutNodes<T>(l: List<T>) returns (nodes: seq<Node<T>>)
    requires l.Valid()
    ensures nodes == l.spine
    ensures forall i, j :: 0 <= i < j < |nodes| ==> nodes[i] != nodes[j]
  {
    var it := l.IterMut();
    nodes := [];
    while true
      invariant it.Valid() && it.list == l
      invariant nodes == l.spine[..it.pos]
      decreases |l.spine| - it.pos
    {
      var r := it.Next();
      if r.None? {
        break;
      }
      nodes := nodes + [r.value];
    }
    ChainDistinct(l.head, l.spine);
  }

  /** Writing `v` through every node a mutable cursor yields sets every element to `v`. */
  method IterMutWriteAll<T>(l: List<T>, v: T)
    requires l.Valid()
    modifies l`Contents, l.spine
    ensures l.Valid() && l.spine == old(l.spine) && l.head == old(l.head)
    ensures l.Contents == seq(|old(l.Contents)|, _ => v)
  {
    var it := l.IterMut();
    while true
      invariant it.Valid() && it.list == l
      invariant l.spine == old(l.spine) && l.head == old(l.head)
      invariant forall i :: 0 <= i < it.pos ==> l.Contents[i] == v
      decreases |l.spine| - it.pos
    {
      var r := it.Next();
      if r.None? {
        break;
      }
      WriteThrough(l, it.pos - 1, r.value, v);
    }
  }

  /** A consuming cursor yields the contents head to tail and leaves the list empty. */
  method IntoIterCollect<T>(l: List<T>) returns (out: seq<T>, after: Option<T>)
    requires l.Valid()
    modifies l
    ensures l.Valid() && l.Contents == []
    ensures out == old(l.Contents) && after == None
  {
    var it := l.IntoIter();
    out := [];
    while true
      invariant it.Valid() && it.list == l
      invariant old(l.Contents) == out + l.Contents
      decreases |l.Contents|
    {
      var r := it.Next();
      if r.None? {
        break;
      }
      out := out + [r.value];
    }
    after := it.Next();
  }

  /** The list every traversal test starts from: 1, 2 and 3 pushed in that order. */
  method OneTwoThree() returns (l: List<int>)
    ensures fresh(l) && l.Valid() && l.Contents == [3, 2, 1]
    ensures forall i :: 0 <= i < |l.spine| ==> fresh(l.spine[i])
  {
    l := new List<int>();
    l.Push(1);
    l.Push(2);
    l.Push(3);
  }

  /** Unit test `push_and_pop`. */
  method PushAndPop() returns (popped: seq<Option<int>>)
    ensures popped == [None, Some(3), Some(2), Some(6), Some(5), Some(4), Some(1), None]
  {
    var l := new List<int>();
    var r0 := l.Pop();
    l.Push(1);
    l.Push(2);
    l.Push(3);
    var r1 := l.Pop();
    var r2 := l.Pop();
    l.Push(4);
    l.Push(5);
    l.Push(6);
    var r3 := l.Pop();
    var r4 := l.Pop();
    var r5 := l.Pop();
    var r6 := l.Pop();
    var r7 := l.Pop();
    popped := [r0, r1, r2, r3, r4, r5, r6, r7];
  }

  /** The value an `Option<&mut T>` refers to, as the test's `assert_eq!` compares it. */
  function Deref<T>(r: Option<Node<T>>): Option<T>
    reads if r.Some? then {r.value} else {}
  {
    if r.Some? then Some(r.value.elem) else None
  }

  /**
   * The opening shared by the tests `peek` and `peek_mut`: on an empty list
   * `peek` and `peek_mut` both see nothing; after pushing 1, 2, 3 both see 3.
   * The list is handed on for the rest of the test.
   */
  method PeekOpening() returns (l: List<int>, seen: seq<Option<int>>)
    ensures fresh(l) && l.Valid() && l.Contents == [3, 2, 1]
    ensures forall i :: 0 <= i < |l.spine| ==> fresh(l.spine[i])
    ensures seen == [None, None, Some(3), Some(3)]
  {
    l := new List<int>();
    var p0 := l.Peek();
    var n0 := l.PeekMut();
    var m0 := Deref(n0);
    l.Push(1);
    l.Push(2);
    l.Push(3);
    var p1 := l.Peek();
    var n1 := l.PeekMut();
    var m1 := Deref(n1);
    seen := [p0, m0, p1, m1];
  }

  /** Unit test `peek`: `peek`, `peek_mut`, `peek`, `peek_mut` give None, None, 3, 3. */
  method Peek() returns (seen: seq<Option<int>>)
    ensures seen == [None, None, Some(3), Some(3)]
  {
    var l;
    l, seen := PeekOpening();
  }

  /**
   * Unit test `peek_mut`: the same opening as `peek`; then writing 42 through
   * `peek_mut` is seen by `peek` and `pop`, and the rest of the list is kept.
   */
  method PeekMut() returns (seen: seq<Option<int>>, peeked: Option<int>, popped: Option<int>, rest: seq<int>)
    ensures seen == [None, None, Some(3), Some(3)]
    ensures peeked == Some(42) && popped == Some(42)
    ensures rest == [2, 1]
  {
    var l;
    l, seen := PeekOpening();
    var n := l.PeekMut();
    if n.Some? {
      WriteThrough(l, 0, n.value, 42);
    }
    peeked := l.Peek();
    popped := l.Pop();
    var after;
    rest, after := IterCollect(l);
  }

  /** Unit test `into_iter`: 3, 2, 1, then None. */
  method IntoIter() returns (ys: seq<Option<int>>)
    ensures ys == [Some(3), Some(2), Some(1), None, None]
  {
    var l := OneTwoThree();
    var it := l.IntoIter();
    var y0 := it.Next();
    var y1 := it.Next();
    var y2 := it.Next();
    var y3 := it.Next();
    var y4 := it.Next();
    ys := [y0, y1, y2, y3, y4];
  }

  /** Unit test `iter`: 3, 2, 1, then None; the list still pops 3, 2, 1 afterwards. */
  method Iter() returns (ys: seq<Option<int>>, popped: seq<Option<int>>)
    ensures ys == [Some(3), Some(2), Some(1), None]
    ensures popped == [Some(3), Some(2), Some(1), None]
  {
    var l := OneTwoThree();
    var it := l.Iter();
    var y0 := it.Next();
    var y1 := it.Next();
    var y2 := it.Next();
    var y3 := it.Next();
    ys := [y0, y1, y2, y3];
    var p0 := l.Pop();
    var p1 := l.Pop();
    var p2 := l.Pop();
    var p3 := l.Pop();
    popped := [p0, p1, p2, p3];
  }

  /** Unit test `iter_mut`: the cursor yields the nodes holding 3, 2, 1, then None. */
  method IterMut() returns (ys: seq<int>, last: Option<Node<int>>)
    ensures ys == [3, 2, 1] && last == None
  {
    var l := OneTwoThree();
    var it := l.IterMut();
    var n0 := it.Next();
    var n1 := it.Next();
    var n2 := it.Next();
    ys := [n0.value.elem, n1.value.elem, n2.value.elem];
    last := it.Next();
  }

  /** Writing 20 through the second node that `iter_mut` yields changes only that element. */
  method IterMutWrite() returns (popped: seq<Option<int>>)
    ensures popped == [Some(3), Some(20), Some(1), None]
  {
    var l := OneTwoThree();
    var it := l.IterMut();
    var n0 := it.Next();
    var n1 := it.Next();
    WriteThrough(l, 1, n1.value, 20);
    assert l.Contents == [3, 20, 1];
    var p0 := l.Pop();
    var p1 := l.Pop();
    var p2 := l.Pop();
    var p3 := l.Pop();
    popped := [p0, p1, p2, p3];
  }
}
