/** The send buffer, the receive buffer and the receive queue as linked rings of segments: the scans
    that follow the references and delete, insert and move nodes do what the control block says of
    sequences. */
module SegmentQueues {
  import opened Serial
  import opened ControlBlock
  import opened Endpoint
  import opened IntrusiveQueue
  import Kcp

  predicate Inside<T>(s: seq<Node<T>>, r: seq<Node<T>>) {
    forall x :: x in s ==> x in r
  }

  // All nodes come from one of two rings.
  predicate From<T>(s: seq<Node<T>>, a: seq<Node<T>>, b: seq<Node<T>>) {
    forall x :: x in s ==> x in a || x in b
  }

  lemma FromMoved<T>(r: seq<Node<T>>, q: seq<Node<T>>, a: seq<Node<T>>, b: seq<Node<T>>)
    requires |r| > 1 && From(r, a, b) && From(q, a, b)
    ensures From(Removed(r, 1), a, b) && From(q + [r[1]], a, b)
  {
  }

  // The segments waiting for an acknowledgement.
  class SendBuffer {
    const head: Node<OutSeg>
    var una: U32
    var nxt: U32
    ghost var ring: seq<Node<OutSeg>>

    ghost predicate Valid()
      reads this, ring
    {
      Ring(ring) && ring[0] == head
    }

    ghost function View(): Sender
      requires ring != []
      reads this
    {
      Sender(una, nxt, [], Segments(ring))
    }

    constructor (head: Node<OutSeg>)
      modifies head
      ensures Valid() && this.head == head && View() == Sender(0, 0, [], []) && ring == [head]
    {
      this.head := head;
      una, nxt, ring := 0, 0, [head];
      new;
      Init(head);
    }

    // The segments before `una` leave from the front.
    method ParseUna(una: U32)
      requires Valid()
      modifies `ring, ring
      ensures Valid() && Inside(ring, old(ring))
      ensures View() == ControlBlock.ParseUna(old(View()), una)
    {
      Reach(ring, 0);
      var p := head.next;
      while p != head
        invariant Valid() && Inside(ring, old(ring)) && p == After(ring, 0)
        invariant DropBefore(Segments(ring), una) == DropBefore(old(Segments(ring)), una)
        decreases |ring|
      {
        Reach(ring, 1);
        var next := p.next;
        if Diff(una, p.seg.sn) > 0 {
          FirstRemoved(ring);
          assert p in ring && p.next in ring && p.prev in ring;
          assert p in old(ring) && p.next in old(ring) && p.prev in old(ring);
          Del(p, ring, 1);
          ring := Removed(ring, 1);
          p := next;
        } else {
          break;
        }
      }
    }

    // The segment numbered `sn` leaves, if it is outstanding; the scan stops at the first later one.
    method ParseAck(sn: U32)
      requires Valid() && Kcp.ScanReady(View())
      modifies `ring, ring
      ensures Valid() && Inside(ring, old(ring))
      ensures View() == ControlBlock.ParseAck(old(View()), sn)
    {
      hide Without, OutWindow, Off, Diff;
      ghost var w, buf := InFlight(View()), Segments(ring);
      Kcp.OutstandingTest(View(), sn);
      if Diff(sn, una) < 0 || Diff(sn, nxt) >= 0 {
        return;
      }
      Reach(ring, 0);
      var p := head.next;
      ghost var k := 0;
      while p != head
        invariant Valid() && ring == old(ring) && k < |ring| && p == After(ring, k)
        invariant forall j :: 0 <= j < k ==> buf[j].sn != sn
        decreases |ring| - k
      {
        Reach(ring, k + 1);
        var next := p.next;
        assert p.seg == buf[k];
        if sn == p.seg.sn {
          WithoutAt(una, w, buf, k);
          SegmentsRemoved(ring, k + 1);
          Del(p, ring, k + 1);
          ring := Removed(ring, k + 1);
          return;
        }
        if Diff(sn, p.seg.sn) < 0 {
          break;
        }
        p := next;
        k := k + 1;
      }
      Kcp.ScanMayStop(una, w, buf, sn, k);
    }
  }

  // The segments that arrived ahead, and those that are ready.
  class ReceiveQueues {
    const wnd: nat
    const buf: Node<InSeg>
    const queue: Node<InSeg>
    var nxt: U32
    var queued: nat
    ghost var ahead: seq<Node<InSeg>>
    ghost var ready: seq<Node<InSeg>>

    ghost predicate Valid()
      reads this, ahead, ready
    {
      && Ring(ahead) && ahead[0] == buf && Ring(ready) && ready[0] == queue
      && (forall x :: x in ahead ==> x !in ready) && queued == |ready| - 1
    }

    ghost function View(): Receiver
      requires ahead != [] && ready != []
      reads this
    {
      Receiver(nxt, Segments(ahead), Segments(ready))
    }

    constructor (wnd: nat, buf: Node<InSeg>, queue: Node<InSeg>)
      requires buf != queue
      modifies buf, queue
      ensures Valid() && View() == Receiver(0, [], []) && ahead == [buf] && ready == [queue] && this.wnd == wnd
    {
      this.wnd, this.buf, this.queue := wnd, buf, queue;
      nxt, queued, ahead, ready := 0, 0, [buf], [queue];
      new;
      Init(buf);
      Init(queue);
    }

    // What continues the received prefix goes to the end of the queue while there is room.
    method MoveAvailable()
      requires Valid()
      modifies this, ahead, ready
      ensures Valid() && From(ahead, old(ahead), old(ready)) && From(ready, old(ahead), old(ready))
      ensures View() == Promote(wnd, old(View()))
    {
      EmptyIs(ahead);
      while !IsEmpty(buf)
        invariant Valid() && From(ahead, old(ahead), old(ready)) && From(ready, old(ahead), old(ready))
        invariant IsEmpty(buf) <==> |ahead| == 1
        invariant Promote(wnd, View()) == Promote(wnd, old(View()))
        decreases |ahead|
      {
        Reach(ahead, 0);
        var node := buf.next;
        if node.seg.sn == nxt && queued < wnd {
          FirstRemoved(ahead);
          SegmentsAppended(ready, node);
          FromMoved(ahead, ready, old(ahead), old(ready));
          Reach(ahead, 1);
          Reach(ready, 0);
          MoveFirst(buf, queue, ahead, ready);
          ahead, ready := Removed(ahead, 1), ready + [node];
          queued := queued + 1;
          nxt := Serial.Add(nxt, 1);
          EmptyIs(ahead);
        } else {
          break;
        }
      }
    }

    // The node behind which a number belongs, looked for from the end of the buffer, or that it is
    // there already.
    method FindPlace(sn: U32) returns (p: Node<InSeg>, repeated: bool, ghost k: nat)
      requires Valid() && RecvInv(wnd, View()) && wnd < HALF && Off(nxt, sn) < wnd
      ensures k < |ahead| && p == ahead[k] && repeated == (sn in Sns(Segments(ahead)))
      ensures !repeated ==> Rank(nxt, Segments(ahead), sn) == k
    {
      ghost var segs := Segments(ahead);
      repeated := false;
      Reach(ahead, 0);
      p := buf.prev;
      k := |ahead| - 1;
      while p != buf
        invariant k < |ahead| && p == ahead[k] && !repeated
        invariant k < |segs| ==> Off(nxt, sn) < Off(nxt, segs[k].sn)
        decreases k
      {
        Reach(ahead, k);
        assert p.seg == segs[k - 1];
        DiffInWindow(nxt, sn, p.seg.sn);
        if p.seg.sn == sn {
          assert segs[k - 1] in segs;
          repeated := true;
          return;
        }
        if Diff(sn, p.seg.sn) > 0 {
          break;
        }
        p := p.prev;
        k := k - 1;
      }
      RankIs(nxt, wnd, segs, sn, k);
      Kcp.NotBetween(nxt, wnd, segs, sn, k);
    }

    method Place(node: Node<InSeg>, p: Node<InSeg>, ghost k: nat)
      requires Valid() && k < |ahead| && p == ahead[k] && node !in ahead && node !in ready
      modifies `ahead, ahead, node
      ensures Valid() && ahead == Inserted(old(ahead), k, node) && ready == old(ready)
    {
      Reach(ahead, k);
      Init(node);
      IntrusiveQueue.Add(node, p, ahead, k);
      ahead := Inserted(ahead, k, node);
      assert forall i :: 0 <= i < |ready| ==> old(LinkedAt(ready, i));
    }

    // A segment inside the window takes its place in the buffer, unless its number is there already.
    method ParseData(node: Node<InSeg>)
      requires Valid() && RecvInv(wnd, View()) && wnd < HALF && node !in ahead && node !in ready
      modifies this, ahead, ready, node
      ensures Valid() && From(ahead, old(ahead) + [node], old(ready)) && From(ready, old(ahead) + [node], old(ready))
      ensures View() == ControlBlock.ParseData(wnd, old(View()), node.seg)
    {
      var sn := node.seg.sn;
      RecvWindowTest(wnd, View(), sn);
      if Diff(sn, Serial.Add(nxt, wnd)) >= 0 || Diff(sn, nxt) < 0 {
        return;
      }
      ghost var k;
      var p, repeated;
      p, repeated, k := FindPlace(sn);
      if !repeated {
        SegmentsInserted(ahead, k, node);
        Place(node, p, k);
      }
      MoveAvailable();
    }
  }

  lemma Reach<T>(r: seq<Node<T>>, k: nat)
    requires Ring(r) && k < |r|
    ensures r[k].next == After(r, k) && r[k].prev == Before(r, k)
    ensures r[k].next in r && r[k].prev in r && (k > 0 ==> r[k] != r[0])
  {
    assert LinkedAt(r, k);
  }
}
