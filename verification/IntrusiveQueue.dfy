/** The doubly linked queues that run through the segments: rings of nodes whose references are
    rewired in place. */
module IntrusiveQueue {
  // A segment with the links that run through it. What the head of a queue holds is never looked at.
  class Node<T> {
    const seg: T
    var next: Node?<T>
    var prev: Node?<T>

    constructor (seg: T)
      ensures this.seg == seg && next == null && prev == null
    {
      this.seg := seg;
      next, prev := null, null;
    }
  }

  // A ring as the sequence of its nodes, from the head of the queue on.

  function After<T>(r: seq<Node<T>>, i: nat): Node<T>
    requires i < |r|
  {
    if i + 1 < |r| then r[i + 1] else r[0]
  }

  function Before<T>(r: seq<Node<T>>, i: nat): Node<T>
    requires i < |r|
  {
    if i > 0 then r[i - 1] else r[|r| - 1]
  }

  predicate Different<T>(r: seq<Node<T>>) {
    forall i, j :: 0 <= i < j < |r| ==> r[i] != r[j]
  }

  predicate LinkedAt<T>(r: seq<Node<T>>, i: nat)
    requires i < |r|
    reads r[i]
  {
    r[i].next == After(r, i) && r[i].prev == Before(r, i)
  }

  // Every node leads to the next one and back, the last one to the first.
  predicate Ring<T>(r: seq<Node<T>>)
    reads r
  {
    r != [] && Different(r) && forall i :: 0 <= i < |r| ==> LinkedAt(r, i)
  }

  function Inserted<T>(r: seq<Node<T>>, k: nat, node: Node<T>): (s: seq<Node<T>>)
    requires k < |r|
    ensures |s| == |r| + 1
  {
    r[..k + 1] + [node] + r[k + 1..]
  }

  function Removed<T>(r: seq<Node<T>>, k: nat): (s: seq<Node<T>>)
    requires k < |r|
    ensures |s| == |r| - 1
  {
    r[..k] + r[k + 1..]
  }

  // What is deleted after it has been added leaves the queue as it was.
  lemma RemovedInserted<T>(r: seq<Node<T>>, k: nat, node: Node<T>)
    requires k < |r|
    ensures Removed(Inserted(r, k, node), k + 1) == r
  {
    assert Inserted(r, k, node)[..k + 1] == r[..k + 1] && Inserted(r, k, node)[k + 2..] == r[k + 1..];
  }

  method Init<T>(ptr: Node<T>)
    modifies ptr
    ensures Ring([ptr])
  {
    ptr.next, ptr.prev := ptr, ptr;
  }

  predicate IsEmpty<T>(entry: Node<T>)
    reads entry
  {
    entry == entry.next
  }

  // A queue is empty when its head is alone.
  lemma EmptyIs<T>(r: seq<Node<T>>)
    requires Ring(r)
    ensures IsEmpty(r[0]) <==> |r| == 1
  {
    assert LinkedAt(r, 0);
  }

  // A node is added behind another, wherever that is in the ring.
  method Add<T>(node: Node<T>, head: Node<T>, ghost r: seq<Node<T>>, ghost k: nat)
    requires Ring(r) && k < |r| && head == r[k] && node !in r
    modifies node, head, head.next
    ensures Ring(Inserted(r, k, node))
  {
    assert LinkedAt(r, k);
    node.prev := head;
    node.next := head.next;
    head.next.prev := node;
    head.next := node;
    ghost var s := Inserted(r, k, node);
    forall i | 0 <= i < |s| ensures LinkedAt(s, i) {
      if i <= k {
        assert old(LinkedAt(r, i));
      } else if i > k + 1 {
        assert old(LinkedAt(r, i - 1));
      }
    }
  }

  // A node is added at the end of the queue.
  method AddTail<T>(node: Node<T>, head: Node<T>, ghost r: seq<Node<T>>)
    requires Ring(r) && head == r[0] && node !in r
    modifies node, head, head.prev
    ensures Ring(r + [node])
  {
    assert LinkedAt(r, 0);
    node.prev := head.prev;
    node.next := head;
    head.prev.next := node;
    head.prev := node;
    ghost var s := r + [node];
    forall i | 0 <= i < |s| ensures LinkedAt(s, i) {
      if i < |r| {
        assert old(LinkedAt(r, i));
      }
    }
  }

  // A node is taken out of its ring; the others close it.
  method Del<T>(entry: Node<T>, ghost r: seq<Node<T>>, ghost k: nat)
    requires Ring(r) && k < |r| && entry == r[k]
    modifies entry, entry.next, entry.prev
    ensures |r| > 1 ==> Ring(Removed(r, k))
    ensures entry.next == null && entry.prev == null
  {
    assert LinkedAt(r, k);
    entry.next.prev := entry.prev;
    entry.prev.next := entry.next;
    entry.next := null;
    entry.prev := null;
    ghost var s := Removed(r, k);
    forall i | 0 <= i < |s| ensures LinkedAt(s, i) {
      assert old(LinkedAt(r, if i < k then i else i + 1));
    }
  }

  method DelInit<T>(entry: Node<T>, ghost r: seq<Node<T>>, ghost k: nat)
    requires Ring(r) && 0 < k < |r| && entry == r[k]
    modifies entry, entry.next, entry.prev
    ensures Ring(Removed(r, k)) && Ring([entry])
  {
    Del(entry, r, k);
    Init(entry);
  }

  // The first node of one queue goes to the end of another: both stay whole, and no other node moves.
  method MoveFirst<T>(source: Node<T>, target: Node<T>, ghost r: seq<Node<T>>, ghost q: seq<Node<T>>)
    requires Ring(r) && Ring(q) && source == r[0] && target == q[0] && |r| > 1
    requires forall x :: x in r ==> x !in q
    modifies r[1], r[1].next, r[1].prev, q[0], q[0].prev
    ensures Ring(Removed(r, 1)) && Ring(q + [r[1]])
  {
    assert LinkedAt(r, 0) && LinkedAt(r, 1) && LinkedAt(q, 0);
    var node := source.next;
    Neighbours(r, 1);
    assert node in r && node.next in r && node.prev in r;
    Del(node, r, 1);
    assert forall i :: 0 <= i < |q| ==> q[i] !in r;
    ghost var s := Removed(r, 1);
    Neighbours(q, 0);
    AddTail(node, target, q);
    forall i | 0 <= i < |s| ensures s[i] in r && s[i] != r[1] {
    }
  }

  lemma Neighbours<T>(r: seq<Node<T>>, k: nat)
    requires Ring(r) && k < |r|
    ensures r[k].next in r && r[k].prev in r
  {
    assert LinkedAt(r, k);
  }

  // Following the references from the head visits every node once, and comes back.
  method Count<T>(head: Node<T>, ghost r: seq<Node<T>>) returns (n: nat)
    requires Ring(r) && head == r[0]
    ensures n == |r| - 1
  {
    assert LinkedAt(r, 0);
    n := 0;
    var p := head.next;
    while p != head
      invariant n < |r| && p == After(r, n)
      decreases |r| - n
    {
      assert LinkedAt(r, n + 1);
      p := p.next;
      n := n + 1;
    }
  }

  // The segments of a queue: those of all nodes but the head.
  function Segments<T>(r: seq<Node<T>>): (s: seq<T>)
    requires r != []
    ensures |s| == |r| - 1
  {
    seq(|r| - 1, i requires 0 <= i < |r| - 1 => r[i + 1].seg)
  }

  lemma SegmentsRemoved<T>(r: seq<Node<T>>, k: nat)
    requires 0 < k < |r|
    ensures Segments(Removed(r, k)) == Segments(r)[..k - 1] + Segments(r)[k..]
  {
  }

  lemma FirstRemoved<T>(r: seq<Node<T>>)
    requires |r| > 1
    ensures Segments(Removed(r, 1)) == Segments(r)[1..] && Segments(r)[0] == r[1].seg
  {
  }

  lemma SegmentsAppended<T>(r: seq<Node<T>>, node: Node<T>)
    requires r != []
    ensures Segments(r + [node]) == Segments(r) + [node.seg]
  {
  }

  lemma SegmentsInserted<T>(r: seq<Node<T>>, k: nat, node: Node<T>)
    requires k < |r|
    ensures Segments(Inserted(r, k, node)) == Segments(r)[..k] + [node.seg] + Segments(r)[k..]
  {
  }
}
