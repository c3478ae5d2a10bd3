/**
 * A singly linked stack: a `List<T>` owns a chain of heap nodes reachable
 * from its `head`; pushing and popping happen at the head only.  Three
 * cursors walk the chain: `IntoIter` (consuming), `Iter` (read-only) and
 * `IterMut` (handing out the node whose element may be overwritten).
 *
 * The abstract value of a list is the ghost field `Contents`, its elements
 * head to tail; `Valid()` ties it to the nodes (node `i` holds element `i`).
 * `PeekMut` and `IterMut.Next` hand out a node, standing for the `&mut T`
 * into its `elem`; `WriteThrough` is the write through that reference.
 */
module OkList {

  datatype Option<T> = None | Some(value: T)

  /** One heap node: an element and its `Link` to the successor (null: no successor). */
  class Node<T> {
    var elem: T
    var next: Node?<T>

    constructor (elem: T, next: Node?<T>)
      ensures this.elem == elem && this.next == next
    {
      this.elem := elem;
      this.next := next;
    }
  }

  /** The link that starts a chain of nodes: null for the empty chain. */
  function First<T>(spine: seq<Node<T>>): Node?<T>
  {
    if spine == [] then null else spine[0]
  }

  /**
   * `spine` lists, head to tail, the nodes reachable from `link`: `link` is
   * the first node, each node's `next` starts the chain of the nodes after
   * it, and the last one's is null.  Only the `next` fields are read, so
   * writing an element leaves every chain intact.
   */
  ghost predicate Chain<T>(link: Node?<T>, spine: seq<Node<T>>)
    reads spine`next
  {
    if spine == [] then link == null
    else link == spine[0] && Chain(spine[0].next, spine[1..])
  }

  /** Every suffix of a chain is the chain starting at the link into it. */
  lemma {:induction false} ChainSuffix<T>(link: Node?<T>, spine: seq<Node<T>>, k: nat)
    requires Chain(link, spine) && k <= |spine|
    ensures Chain(First(spine[k..]), spine[k..])
    decreases k
  {
    if k > 0 {
      ChainSuffix(spine[0].next, spine[1..], k - 1);
      assert spine[1..][k - 1..] == spine[k..];
    }
  }

  /** A link determines its chain: the ghost spine adds no information to the heap. */
  lemma {:induction false} ChainUnique<T>(link: Node?<T>, s1: seq<Node<T>>, s2: seq<Node<T>>)
    requires Chain(link, s1) && Chain(link, s2)
    ensures s1 == s2
    decreases |s1|
  {
    if link != null {
      ChainUnique(link.next, s1[1..], s2[1..]);
      assert s1 == [s1[0]] + s1[1..];
      assert s2 == [s2[0]] + s2[1..];
    }
  }

  /**
   * No node occurs twice in a chain: the chain is acyclic and no node has two
   * owners.  Two equal nodes would start two chains of different lengths.
   */
  lemma ChainDistinct<T>(link: Node?<T>, spine: seq<Node<T>>)
    requires Chain(link, spine)
    ensures forall i, j :: 0 <= i < j < |spine| ==> spine[i] != spine[j]
  {
    forall i, j | 0 <= i < j < |spine|
      ensures spine[i] != spine[j]
    {
      ChainSuffix(link, spine, i);
      ChainSuffix(link, spine, j);
      if spine[i] == spine[j] {
        ChainUnique(spine[i], spine[i..], spine[j..]);
        assert false;
      }
    }
  }

  class List<T> {
    var head: Node?<T>
    /** The list's elements, head first. */
    ghost var Contents: seq<T>
    /** The nodes owned by the list, head first. */
    ghost var spine: seq<Node<T>>

    /** The chain from `head` is `spine`, and node `i` holds element `i` of `Contents`. */
    ghost predicate Valid()
      reads this, spine
    {
      Chain(head, spine) &&
      |Contents| == |spine| &&
      forall i :: 0 <= i < |spine| ==> spine[i].elem == Contents[i]
    }

    /** `List::new`: an empty list. */
    constructor ()
      ensures Valid() && spine == [] && Contents == []
    {
      head := null;
      spine := [];
      Contents := [];
    }

    /** `push`: a fresh node holding `x` becomes the head and owns the old chain. */
    method Push(x: T)
      requires Valid()
      modifies this
      ensures Valid()
      ensures Contents == [x] + old(Contents)
      ensures fresh(spine[0]) && spine[1..] == old(spine)
    {
      var node := new Node(x, head);
      head := node;
      spine := [node] + spine;
      Contents := [x] + Contents;
      assert spine[1..] == old(spine);
    }

    /** `pop`: None on an empty list; otherwise the head's element, and its successor becomes the head. */
    method Pop() returns (r: Option<T>)
      requires Valid()
      modifies this
      ensures Valid()
      ensures old(Contents) == [] ==> r == None && Contents == []
      ensures old(Contents) != [] ==> r == Some(old(Contents)[0]) && Contents == old(Contents)[1..]
      ensures spine == if old(spine) == [] then [] else old(spine)[1..]
    {
      if head == null {
        r := None;
      } else {
        var node := head;
        head := node.next;
        spine := spine[1..];
        Contents := Contents[1..];
        r := Some(node.elem);
      }
    }

    /** `peek`: the head element if there is one; nothing changes. */
    method Peek() returns (r: Option<T>)
      requires Valid()
      ensures r.None? <==> Contents == []
      ensures r.Some? ==> r.value == Contents[0]
    {
      if head == null {
        r := None;
      } else {
        r := Some(head.elem);
      }
    }

    /**
     * `peek_mut`: the head node, whose `elem` is the place the returned
     * `&mut T` refers to; None on an empty list.
     */
    method PeekMut() returns (r: Option<Node<T>>)
      requires Valid()
      ensures r.None? <==> Contents == []
      ensures r.Some? ==> r.value == spine[0] && r.value.elem == Contents[0]
    {
      if head == null {
        r := None;
      } else {
        r := Some(head);
      }
    }

    /** `into_iter`: the consuming cursor takes over the list. */
    method IntoIter() returns (it: IntoIter<T>)
      requires Valid()
      ensures fresh(it) && it.list == this && it.Valid()
      ensures it.Remaining() == Contents
    {
      it := new IntoIter(this);
    }

    /** `iter`: a read-only cursor positioned at the head. */
    method Iter() returns (it: Iter<T>)
      requires Valid()
      ensures fresh(it) && it.list == this && it.Valid() && it.pos == 0
      ensures it.Remaining() == Contents
    {
      it := new Iter(this);
    }

    /** `iter_mut`: a mutable cursor positioned at the head. */
    method IterMut() returns (it: IterMut<T>)
      requires Valid()
      ensures fresh(it) && it.list == this && it.Valid() && it.pos == 0
      ensures it.Remaining() == Contents
    {
      it := new IterMut(this);
    }

    /**
     * `Drop::drop`: takes the head, then walks the chain one node at a time,
     * taking each node's `next` so that no node owns a successor any more.
     * `detached` records the nodes in the order they were released.
     */
    method Drop() returns (ghost detached: seq<Node<T>>)
      requires Valid()
      modifies this, spine
      ensures Valid() && spine == [] && Contents == []
      ensures detached == old(spine)
      ensures forall i, j :: 0 <= i < j < |detached| ==> detached[i] != detached[j]
      ensures forall i :: 0 <= i < |detached| ==> detached[i].next == null
    {
      ChainDistinct(head, spine);
      ghost var all := spine;
      var cur := head;
      head := null;
      ghost var rest := spine;
      spine := [];
      Contents := [];
      detached := [];
      while cur != null
        invariant all == detached + rest
        invariant Chain(cur, rest)
        invariant forall i :: 0 <= i < |detached| ==> detached[i].next == null
        invariant head == null && spine == [] && Contents == []
        decreases |rest|
      {
        var node := cur;
        ChainDistinct(cur, rest);
        assert node !in rest[1..];
        assert all[|detached|] == node;
        cur := node.next;
        node.next := null;
        detached := detached + [node];
        rest := rest[1..];
      }
    }
  }

  /**
   * `*r = v` through the `&mut T` that `PeekMut` or `IterMut.Next` handed out:
   * `n` is the node at position `k` of `l`.
   */
  method WriteThrough<T>(ghost l: List<T>, ghost k: nat, n: Node<T>, v: T)
    requires l.Valid() && k < |l.spine| && l.spine[k] == n
    modifies n`elem, l`Contents
    ensures l.Valid() && l.spine == old(l.spine) && l.head == old(l.head)
    ensures l.Contents == old(l.Contents)[k := v]
  {
    ChainDistinct(l.head, l.spine);
    n.elem := v;
    l.Contents := l.Contents[k := v];
  }

  /** `IntoIter<T>(List<T>)`: a cursor that owns the list and pops it. */
  class IntoIter<T> {
    const list: List<T>

    ghost predicate Valid()
      reads this, list, list.spine
    {
      list.Valid()
    }

    /** The elements still to be yielded, head first. */
    ghost function Remaining(): seq<T>
      reads this, list
    {
      list.Contents
    }

    constructor (l: List<T>)
      requires l.Valid()
      ensures list == l && Valid()
    {
      list := l;
    }

    /** `next`: pops the owned list; None forever once it is empty. */
    method Next() returns (r: Option<T>)
      requires Valid()
      modifies list
      ensures Valid()
      ensures old(Remaining()) == [] ==> r == None && Remaining() == []
      ensures old(Remaining()) != [] ==> r == Some(old(Remaining())[0]) && Remaining() == old(Remaining())[1..]
    {
      r := list.Pop();
    }
  }

  /** `Iter`: a read-only cursor over a list, positioned at node `pos` of its chain. */
  class Iter<T> {
    var next: Node?<T>
    ghost const list: List<T>
    ghost var pos: nat

    /** `next` is the link into the part of the list's chain not yet yielded. */
    ghost predicate Valid()
      reads this, list, list.spine
    {
      list.Valid() && pos <= |list.spine| && Chain(next, list.spine[pos..])
    }

    /** The elements still to be yielded: a suffix of the list's contents. */
    ghost function Remaining(): seq<T>
      requires pos <= |list.Contents|
      reads this, list
    {
      list.Contents[pos..]
    }

    constructor (l: List<T>)
      requires l.Valid()
      ensures list == l && pos == 0 && Valid()
    {
      next := l.head;
      list := l;
      pos := 0;
      assert l.spine[0..] == l.spine;
    }

    /** `next`: yields the element at the cursor and moves to its successor; the list is untouched. */
    method Next() returns (r: Option<T>)
      requires Valid()
      modifies this
      ensures Valid()
      ensures old(pos) < |list.spine| ==> r == Some(list.Contents[old(pos)]) && pos == old(pos) + 1
      ensures old(pos) == |list.spine| ==> r == None && pos == old(pos)
    {
      if next == null {
        r := None;
      } else {
        var node := next;
        assert list.spine[pos..][1..] == list.spine[pos + 1..];
        next := node.next;
        pos := pos + 1;
        r := Some(node.elem);
      }
    }
  }

  /**
   * `IterMut`: a cursor that hands out, one at a time, the nodes whose `elem`
   * the yielded `&mut T` refers to.
   */
  class IterMut<T> {
    var next: Node?<T>
    ghost const list: List<T>
    ghost var pos: nat

    /** `next` is the link into the part of the list's chain not yet yielded. */
    ghost predicate Valid()
      reads this, list, list.spine
    {
      list.Valid() && pos <= |list.spine| && Chain(next, list.spine[pos..])
    }

    /** The elements still to be yielded: a suffix of the list's contents. */
    ghost function Remaining(): seq<T>
      requires pos <= |list.Contents|
      reads this, list
    {
      list.Contents[pos..]
    }

    constructor (l: List<T>)
      requires l.Valid()
      ensures list == l && pos == 0 && Valid()
    {
      next := l.head;
      list := l;
      pos := 0;
      assert l.spine[0..] == l.spine;
    }

    /**
     * `next`: first takes the held reference out of the cursor, then moves the
     * cursor to the successor and yields the taken node.
     */
    method Next() returns (r: Option<Node<T>>)
      requires Valid()
      modifies this
      ensures Valid()
      ensures old(pos) < |list.spine| ==> r == Some(list.spine[old(pos)]) && pos == old(pos) + 1
      ensures old(pos) == |list.spine| ==> r == None && pos == old(pos)
      ensures r.Some? ==> r.value.elem == list.Contents[old(pos)]
    {
      var taken := next;
      next := null;
      if taken == null {
        r := None;
      } else {
        assert list.spine[pos..][1..] == list.spine[pos + 1..];
        next := taken.next;
        pos := pos + 1;
        r := Some(taken);
      }
    }
  }
}
