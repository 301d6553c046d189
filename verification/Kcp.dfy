/** The control block as the code keeps it: fields updated in place, lists scanned and spliced
    step by step. Every method is proved against the functions of `ControlBlock`. */
module Kcp {
  import opened Serial
  import opened Wire
  import opened ControlBlock
  import opened Endpoint

  // The bytes of the message at the head of a receive queue, fragment by fragment.
  function Head(q: seq<InSeg>): Bytes {
    if q == [] then []
    else q[0].frag.data + (if q[0].frag.frg == 0 then [] else Head(q[1..]))
  }

  lemma {:induction false} HeadIsJoin(q: seq<InSeg>)
    ensures Head(q) == Join(FragsOf(q[..Span(q)]))
  {
    if q != [] {
      var fs := FragsOf(q[..Span(q)]);
      assert fs != [] && fs[0] == q[0].frag;
      if q[0].frag.frg == 0 {
        assert fs[1..] == [];
      } else {
        HeadIsJoin(q[1..]);
        assert fs[1..] == FragsOf(q[1..][..Span(q[1..])]);
      }
    }
  }

  // In a sorted buffer a scan from the front may stop at the first larger number.
  lemma ScanMayStop(base: U32, w: nat, buf: seq<OutSeg>, sn: U32, i: nat)
    requires w <= 0xFFFF && OutWindow(base, w, buf) && Off(base, sn) < w && i <= |buf|
    requires forall j :: 0 <= j < i ==> buf[j].sn != sn
    requires i < |buf| ==> Diff(sn, buf[i].sn) < 0
    ensures Without(buf, sn) == buf
  {
    forall j | i <= j < |buf| ensures buf[j].sn != sn {
      DiffInWindow(base, sn, buf[i].sn);
      assert j > i ==> Off(base, buf[i].sn) < Off(base, buf[j].sn);
    }
    WithoutAbsent(buf, sn);
  }

  // What the scans ask of the invariant, and that the clock is not part of it.
  lemma InvGives(cfg: Config, cb: Cb)
    requires Inv(cfg, cb)
    ensures cfg.Valid() && ScanReady(cb.snd)
    ensures forall k :: Inv(cfg, cb.(clock := k))
  {
  }

  lemma AdmitStep(s: Sender, k: nat, now: U32, rto: U32)
    requires k < |s.queue|
    ensures var t := AdmitSome(s, k, now, rto);
      AdmitSome(s, k + 1, now, rto)
        == Sender(t.una, Add(t.nxt, 1), t.queue[1..], t.buf + [OutSeg(t.nxt, t.queue[0], now, rto, 0, 0)])
  {
    assert AdmittedAll(s, k, now, rto) + [Admitted(s, k, now, rto)] == AdmittedAll(s, k + 1, now, rto);
    assert s.buf + AdmittedAll(s, k, now, rto) + [Admitted(s, k, now, rto)] == s.buf + AdmittedAll(s, k + 1, now, rto);
  }

  // What the loop over the send buffer has counted when it has done the segments `done`.
  datatype Tally = Tally(change: nat, lost: bool, xmit: U32, dead: bool)

  ghost predicate Tallied(cfg: Config, now: U32, rto: U32, start: Tally, done: seq<OutSeg>, t: Tally)
    requires cfg.Valid()
  {
    && t.change == start.change + CountReason(cfg, now, done, Fast)
    && t.lost == (start.lost || CountReason(cfg, now, done, Timeout) > 0)
    && t.xmit == Wrap(start.xmit + CountReason(cfg, now, done, Timeout))
    && t.dead == (start.dead || AnyDead(cfg, now, rto, done))
  }

  function TallyOne(cfg: Config, now: U32, rto: U32, t: Tally, x: OutSeg): Tally
    requires cfg.Valid()
  {
    var why := Decide(cfg, now, x);
    Tally(if why == Fast then t.change + 1 else t.change, t.lost || why == Timeout,
          if why == Timeout then Add(t.xmit, 1) else t.xmit, t.dead || Exhausted(cfg, now, rto, x))
  }

  lemma {:induction false} CountSnoc(cfg: Config, now: U32, done: seq<OutSeg>, x: OutSeg, why: Reason)
    requires cfg.Valid()
    ensures CountReason(cfg, now, done + [x], why)
         == CountReason(cfg, now, done, why) + (if Decide(cfg, now, x) == why then 1 else 0)
  {
    if done == [] {
      assert done + [x] == [x];
    } else {
      assert (done + [x])[1..] == done[1..] + [x];
      CountSnoc(cfg, now, done[1..], x, why);
    }
  }

  lemma DeadSnoc(cfg: Config, now: U32, rto: U32, done: seq<OutSeg>, x: OutSeg)
    requires cfg.Valid()
    ensures AnyDead(cfg, now, rto, done + [x]) <==> AnyDead(cfg, now, rto, done) || Exhausted(cfg, now, rto, x)
  {
    var longer := done + [x];
    if AnyDead(cfg, now, rto, done) {
      var j :| 0 <= j < |done| && Exhausted(cfg, now, rto, done[j]);
      assert longer[j] == done[j];
    }
    assert longer[|done|] == x;
  }

  lemma TallyStep(cfg: Config, now: U32, rto: U32, start: Tally, done: seq<OutSeg>, x: OutSeg, t: Tally)
    requires cfg.Valid() && Tallied(cfg, now, rto, start, done, t)
    ensures Tallied(cfg, now, rto, start, done + [x], TallyOne(cfg, now, rto, t, x))
  {
    CountSnoc(cfg, now, done, x, Fast);
    CountSnoc(cfg, now, done, x, Timeout);
    DeadSnoc(cfg, now, rto, done, x);
    WrapStep(start.xmit + CountReason(cfg, now, done, Timeout));
  }

  lemma DataStep(cfg: Config, r: Receiver, now: U32, buf: seq<OutSeg>, i: nat)
    requires cfg.Valid() && i < |buf|
    ensures DataMsgs(cfg, r, now, buf[i..]) == DataSaid(cfg, r, now, buf[i]) + DataMsgs(cfg, r, now, buf[i + 1..])
  {
    assert buf[i..][0] == buf[i] && buf[i..][1..] == buf[i + 1..];
  }

  // The send buffer when its first `i` segments were touched.
  predicate TouchedUpTo(cfg: Config, now: U32, rto: U32, before: seq<OutSeg>, buf: seq<OutSeg>, i: nat)
    requires cfg.Valid()
  {
    && i <= |before| == |buf|
    && (forall j :: 0 <= j < i ==> buf[j] == Touch(cfg, now, rto, before[j]))
    && (forall j :: i <= j < |buf| ==> buf[j] == before[j])
  }

  // The send buffer is sorted inside its window, so its scans may stop early.
  predicate ScanReady(s: Sender) {
    InFlight(s) <= 0xFFFF && OutWindow(s.una, InFlight(s), s.buf)
  }

  // The numbers that count as outstanding are those of the send window.
  lemma OutstandingTest(s: Sender, sn: U32)
    requires InFlight(s) <= 0xFFFF
    ensures Outstanding(s, sn) <==> Off(s.una, sn) < InFlight(s)
  {
  }

  // A number strictly between two neighbours of a sorted buffer is not in it.
  lemma NotBetween(base: U32, w: nat, buf: seq<InSeg>, sn: U32, p: nat)
    requires InWindow(base, w, buf) && p <= |buf|
    requires p > 0 ==> Off(base, buf[p - 1].sn) < Off(base, sn)
    requires p < |buf| ==> Off(base, sn) < Off(base, buf[p].sn)
    ensures sn !in Sns(buf)
  {
    forall x | x in buf ensures x.sn != sn {
      var j :| 0 <= j < |buf| && buf[j] == x;
      assert j < p - 1 ==> Off(base, buf[j].sn) < Off(base, buf[p - 1].sn);
      assert j > p ==> Off(base, buf[p].sn) < Off(base, buf[j].sn);
    }
  }

  class ControlBlockObject {
    const cfg: Config
    var sndUna: U32
    var sndNxt: U32
    var rcvNxt: U32
    var rxRttval: int
    var rxSrtt: int
    var rxRto: U32
    var rmtWnd: U16
    var cwnd: U32
    var ssthresh: U32
    var incr: U32
    var askSend: bool
    var askTell: bool
    var tsProbe: U32
    var probeWait: U32
    var current: U32
    var updated: bool
    var tsFlush: U32
    var xmit: U32
    var dead: bool
    var nsndQue: nat
    var nsndBuf: nat
    var nrcvQue: nat
    var nrcvBuf: nat
    var sndQueue: seq<Frag>
    var sndBuf: seq<OutSeg>
    var rcvBuf: seq<InSeg>
    var rcvQueue: seq<InSeg>
    var acklist: seq<Ack>

    function Snd(): Sender
      reads `sndUna, `sndNxt, `sndQueue, `sndBuf
    {
      Sender(sndUna, sndNxt, sndQueue, sndBuf)
    }

    function Rcv(): Receiver
      reads `rcvNxt, `rcvBuf, `rcvQueue
    {
      Receiver(rcvNxt, rcvBuf, rcvQueue)
    }

    function Cong(): Congestion
      reads `rmtWnd, `cwnd, `ssthresh, `incr
    {
      Congestion(rmtWnd, cwnd, ssthresh, incr)
    }

    function View(): Cb
      reads this
    {
      Cb(Snd(), Rcv(), Rtt(rxRttval, rxSrtt, rxRto), Cong(),
         Probe(askSend, askTell, tsProbe, probeWait), Clock(current, updated, tsFlush),
         acklist, xmit, dead)
    }

    // The four counters are the lengths of their queues.
    predicate Counted()
      reads `nsndQue, `nsndBuf, `nrcvQue, `nrcvBuf, `sndQueue, `sndBuf, `rcvQueue, `rcvBuf
    {
      nsndQue == |sndQueue| && nsndBuf == |sndBuf| && nrcvQue == |rcvQueue| && nrcvBuf == |rcvBuf|
    }

    predicate Valid()
      reads this
    {
      Counted() && Inv(cfg, View())
    }

    constructor (config: Config)
      requires config.Valid()
      ensures Valid() && cfg == config && View() == INITIAL
    {
      cfg := config;
      sndUna, sndNxt, rcvNxt := 0, 0, 0;
      rxRttval, rxSrtt, rxRto := 0, 0, RTO_DEF;
      rmtWnd, cwnd, ssthresh, incr := WND_RCV, 0, THRESH_INIT, 0;
      askSend, askTell, tsProbe, probeWait := false, false, 0, 0;
      current, updated, tsFlush := 0, false, 100;
      xmit, dead := 0, false;
      nsndQue, nsndBuf, nrcvQue, nrcvBuf := 0, 0, 0, 0;
      sndQueue, sndBuf, rcvBuf, rcvQueue, acklist := [], [], [], [], [];
    }

    // Receiving by the user

    method PeekSize() returns (size: int)
      requires Counted()
      ensures size == ControlBlock.PeekSize(rcvQueue)
    {
      if rcvQueue == [] {
        return -1;
      }
      HeadIsJoin(rcvQueue);
      if rcvQueue[0].frag.frg == 0 {
        return |rcvQueue[0].frag.data|;
      }
      if nrcvQue < rcvQueue[0].frag.frg + 1 {
        return -1;
      }
      var p := 0;
      size := 0;
      while p < nrcvQue
        invariant 0 <= p <= nrcvQue
        invariant size + |Head(rcvQueue[p..])| == |Head(rcvQueue)|
      {
        var seg := rcvQueue[p];
        assert rcvQueue[p..][1..] == rcvQueue[p + 1..];
        size := size + |seg.frag.data|;
        if seg.frag.frg == 0 {
          return;
        }
        p := p + 1;
      }
    }

    // Moves available data from the receive buffer to the receive queue.
    method MoveAvailable()
      requires Counted()
      modifies `rcvBuf, `rcvQueue, `rcvNxt, `nrcvBuf, `nrcvQue
      ensures Counted() && Rcv() == Promote(cfg.rcvWnd, old(Rcv()))
    {
      while rcvBuf != []
        invariant Counted() && Promote(cfg.rcvWnd, Rcv()) == Promote(cfg.rcvWnd, old(Rcv()))
        decreases |rcvBuf|
      {
        var seg := rcvBuf[0];
        if seg.sn == rcvNxt && nrcvQue < cfg.rcvWnd {
          rcvBuf := rcvBuf[1..];
          nrcvBuf := nrcvBuf - 1;
          rcvQueue := rcvQueue + [seg];
          nrcvQue := nrcvQue + 1;
          rcvNxt := Add(rcvNxt, 1);
        } else {
          break;
        }
      }
    }

    // Merges the fragments at the head of the receive queue; unless peeking, takes them out.
    method MergeFragments(peek: bool) returns (data: Bytes)
      requires Counted() && rcvQueue != []
      modifies `rcvQueue, `nrcvQue
      ensures Counted() && data == Head(old(rcvQueue))
      ensures rcvQueue == if peek then old(rcvQueue) else old(rcvQueue)[Span(old(rcvQueue))..]
    {
      var p := rcvQueue;
      data := [];
      ghost var n := 0;
      while p != []
        invariant Counted()
        invariant n <= |old(rcvQueue)| && p == old(rcvQueue)[n..]
        invariant data + Head(p) == Head(old(rcvQueue)) && n + Span(p) == Span(old(rcvQueue))
        invariant rcvQueue == if peek then old(rcvQueue) else p
        decreases |p|
      {
        var seg := p[0];
        p := p[1..];
        n := n + 1;
        data := data + seg.frag.data;
        if !peek {
          rcvQueue := rcvQueue[1..];
          nrcvQue := nrcvQue - 1;
        }
        if seg.frag.frg == 0 {
          return;
        }
      }
    }

    // What `Recv` does once a message is known to be complete and to fit.
    method TakeMessage(peek: bool) returns (data: Bytes)
      requires Counted() && rcvQueue != []
      modifies `rcvBuf, `rcvQueue, `rcvNxt, `nrcvBuf, `nrcvQue, `askTell
      ensures Counted() && data == Head(old(rcvQueue))
      ensures var q := old(rcvQueue);
        Rcv() == Promote(cfg.rcvWnd, old(Rcv()).(queue := if peek then q else q[Span(q)..]))
      ensures askTell == (old(askTell) || (|old(rcvQueue)| >= cfg.rcvWnd && |rcvQueue| < cfg.rcvWnd))
    {
      var recover := nrcvQue >= cfg.rcvWnd;
      data := MergeFragments(peek);
      MoveAvailable();
      if nrcvQue < cfg.rcvWnd && recover {
        askTell := true;
      }
    }

    // `cb` is the control block as it is; only its receiver and the flag to tell the window change.
    method RecvCounted(len: int, ghost cb: Cb) returns (code: int, data: Bytes)
      requires Counted() && cb.rcv == Rcv() && cb.probe.askTell == askTell
      modifies `rcvBuf, `rcvQueue, `rcvNxt, `nrcvBuf, `nrcvQue, `askTell
      ensures Counted()
      ensures ControlBlock.Recv(cfg, cb, len)
           == Received(cb.(rcv := Rcv(), probe := cb.probe.(askTell := askTell)), code, data)
    {
      hide Span, Join, FragsOf, Head, Promote, ControlBlock.PeekSize;
      data := [];
      if rcvQueue == [] {
        return -1, data;
      }
      var room := if len < 0 then -len else len;
      var size := PeekSize();
      if size < 0 {
        return -2, data;
      }
      if size > room {
        return -3, data;
      }
      HeadIsJoin(rcvQueue);
      data := TakeMessage(len < 0);
      code := |data|;
    }

    method Recv(len: int) returns (code: int, data: Bytes)
      requires Valid()
      modifies `rcvBuf, `rcvQueue, `rcvNxt, `nrcvBuf, `nrcvQue, `askTell
      ensures Valid() && ControlBlock.Recv(cfg, old(View()), len) == Received(View(), code, data)
    {
      hide Inv, ControlBlock.Recv;
      RecvKeepsInv(cfg, View(), len);
      ghost var cb := View();
      code, data := RecvCounted(len, cb);
    }

    // Sending by the user

    method Send(m: Bytes) returns (code: int)
      requires Valid()
      modifies `sndQueue, `nsndQue
      ensures Valid()
      ensures (View(), code) == ControlBlock.Send(cfg, old(View()), m)
    {
      hide Inv;
      InvGives(cfg, View());
      SendKeepsInv(cfg, View(), m);
      var mss := cfg.Mss();
      var count := if |m| <= mss then 1 else (|m| + mss - 1) / mss;
      if count >= WND_RCV {
        return -2;
      }
      var rest := m;
      var i := 0;
      while i < count
        invariant 0 <= i <= count < WND_RCV && Counted()
        invariant i < count ==> FragCount(|rest|, mss) == count - i
        invariant i < count ==> sndQueue + Fragments(rest, mss) == old(sndQueue) + Fragments(m, mss)
        invariant i == count ==> sndQueue == old(sndQueue) + Fragments(m, mss)
      {
        var size := if |rest| > mss then mss else |rest|;
        if |rest| > mss {
          FragCountStep(|rest|, mss);
          assert Fragments(rest, mss) == [Frag(count - i - 1, rest[..size])] + Fragments(rest[size..], mss);
        } else {
          assert rest[..size] == rest;
          assert Fragments(rest, mss) == [Frag(count - i - 1, rest[..size])];
        }
        sndQueue := sndQueue + [Frag(count - i - 1, rest[..size])];
        nsndQue := nsndQue + 1;
        rest := rest[size..];
        i := i + 1;
      }
      code := 0;
    }

    // Input

    method UpdateAck(rtt: int)
      requires cfg.Valid() && -HALF <= rtt < HALF
      modifies `rxSrtt, `rxRttval, `rxRto
      ensures Rtt(rxRttval, rxSrtt, rxRto) == ControlBlock.UpdateAck(cfg, old(Rtt(rxRttval, rxSrtt, rxRto)), rtt)
    {
      if rxSrtt == 0 {
        rxSrtt := rtt;
        rxRttval := HalfTowardsZero(rtt);
      } else {
        var delta := rtt - rxSrtt;
        if delta < 0 {
          delta := -delta;
        }
        rxRttval := TowardsZero(Signed(Wrap(3 * rxRttval)) + delta, 4);
        rxSrtt := TowardsZero(Signed(Wrap(7 * rxSrtt + rtt)), 8);
        if rxSrtt < 1 {
          rxSrtt := 1;
        }
      }
      var rto := Wrap(rxSrtt + Max(cfg.interval, Wrap(4 * rxRttval)));
      rxRto := Min(Max(cfg.MinRto(), rto), RTO_MAX);
    }

    method ShrinkBuf()
      modifies `sndUna
      ensures Snd() == Shrink(old(Snd()))
    {
      if sndBuf != [] {
        sndUna := sndBuf[0].sn;
      } else {
        sndUna := sndNxt;
      }
    }

    // The scan stops at the number or at the first larger one.
    method ParseAck(sn: U32)
      requires ScanReady(Snd()) && nsndBuf == |sndBuf|
      modifies `sndBuf, `nsndBuf
      ensures Snd() == ControlBlock.ParseAck(old(Snd()), sn) && nsndBuf == |sndBuf|
    {
      OutstandingTest(Snd(), sn);
      if Diff(sn, sndUna) < 0 || Diff(sn, sndNxt) >= 0 {
        return;
      }
      var i := 0;
      while i < nsndBuf
        invariant 0 <= i <= nsndBuf && sndBuf == old(sndBuf) && nsndBuf == old(nsndBuf)
        invariant forall j :: 0 <= j < i ==> sndBuf[j].sn != sn
      {
        if sn == sndBuf[i].sn {
          WithoutAt(sndUna, InFlight(Snd()), sndBuf, i);
          sndBuf := sndBuf[..i] + sndBuf[i + 1..];
          nsndBuf := nsndBuf - 1;
          return;
        }
        if Diff(sn, sndBuf[i].sn) < 0 {
          break;
        }
        i := i + 1;
      }
      ScanMayStop(sndUna, InFlight(Snd()), sndBuf, sn, i);
    }

    method ParseUna(una: U32)
      requires nsndBuf == |sndBuf|
      modifies `sndBuf, `nsndBuf
      ensures Snd() == ControlBlock.ParseUna(old(Snd()), una) && nsndBuf == |sndBuf|
    {
      while sndBuf != []
        invariant DropBefore(sndBuf, una) == DropBefore(old(sndBuf), una) && nsndBuf == |sndBuf|
        decreases |sndBuf|
      {
        if Diff(una, sndBuf[0].sn) > 0 {
          sndBuf := sndBuf[1..];
          nsndBuf := nsndBuf - 1;
        } else {
          break;
        }
      }
    }

    method ParseFastack(sn: U32)
      requires ScanReady(Snd())
      modifies `sndBuf
      ensures Snd() == ControlBlock.ParseFastack(old(Snd()), sn)
    {
      OutstandingTest(Snd(), sn);
      if Diff(sn, sndUna) < 0 || Diff(sn, sndNxt) >= 0 {
        return;
      }
      ghost var all := OvertakenAll(sndUna, sndBuf, sn);
      var i := 0;
      while i < |sndBuf|
        invariant 0 <= i <= |sndBuf| == |all| == |old(sndBuf)|
        invariant forall j :: 0 <= j < i ==> sndBuf[j] == all[j]
        invariant forall j :: i <= j < |sndBuf| ==> sndBuf[j] == old(sndBuf)[j]
      {
        var seg := sndBuf[i];
        DiffInWindow(sndUna, sn, seg.sn);
        if Diff(sn, seg.sn) < 0 {
          break;
        } else if sn != seg.sn {
          sndBuf := sndBuf[i := seg.(fastack := Add(seg.fastack, 1))];
        }
        i := i + 1;
      }
      forall j | i <= j < |sndBuf| ensures sndBuf[j] == all[j] {
        assert j > i ==> Off(sndUna, old(sndBuf)[i].sn) < Off(sndUna, old(sndBuf)[j].sn);
      }
      assert sndBuf == all;
    }

    method AckPush(sn: U32, ts: U32)
      modifies `acklist
      ensures acklist == old(acklist) + [Ack(sn, ts)]
    {
      acklist := acklist + [Ack(sn, ts)];
    }

    // The scan from the back stops at the number or at the first smaller one, which is where the
    // segment belongs.
    method ParseData(s: InSeg)
      requires cfg.Valid() && Counted() && RecvInv(cfg.rcvWnd, Rcv())
      modifies `rcvBuf, `rcvQueue, `rcvNxt, `nrcvBuf, `nrcvQue
      ensures Counted() && Rcv() == ControlBlock.ParseData(cfg.rcvWnd, old(Rcv()), s)
    {
      RecvWindowTest(cfg.rcvWnd, Rcv(), s.sn);
      if Diff(s.sn, Add(rcvNxt, cfg.rcvWnd)) >= 0 || Diff(s.sn, rcvNxt) < 0 {
        return;
      }
      var p := nrcvBuf;
      var repeated := false;
      while p > 0
        invariant Counted() && Rcv() == old(Rcv()) && 0 <= p <= nrcvBuf && !repeated
        invariant p < nrcvBuf ==> Off(rcvNxt, s.sn) < Off(rcvNxt, rcvBuf[p].sn)
      {
        var seg := rcvBuf[p - 1];
        DiffInWindow(rcvNxt, s.sn, seg.sn);
        if seg.sn == s.sn {
          repeated := true;
          break;
        }
        if Diff(s.sn, seg.sn) > 0 {
          break;
        }
        p := p - 1;
      }
      if repeated {
        assert rcvBuf[p - 1] in rcvBuf;
      } else {
        RankIs(rcvNxt, cfg.rcvWnd, rcvBuf, s.sn, p);
        NotBetween(rcvNxt, cfg.rcvWnd, rcvBuf, s.sn, p);
        rcvBuf := rcvBuf[..p] + [s] + rcvBuf[p..];
        nrcvBuf := nrcvBuf + 1;
      }
      MoveAvailable();
    }

    method AcceptUna(m: Msg)
      requires Counted()
      modifies `rmtWnd, `sndUna, `sndBuf, `nsndBuf
      ensures Counted() && rmtWnd == m.wnd && Snd() == Shrink(ControlBlock.ParseUna(old(Snd()), m.una))
    {
      rmtWnd := m.wnd;
      ParseUna(m.una);
      ShrinkBuf();
    }

    method AcceptAck(m: Msg)
      requires cfg.Valid() && Counted() && ScanReady(Snd())
      modifies `sndUna, `sndBuf, `nsndBuf, `rxSrtt, `rxRttval, `rxRto
      ensures Counted() && Snd() == Shrink(ControlBlock.ParseAck(old(Snd()), m.sn))
      ensures var rtt := Diff(current, m.ts);
        var t := old(Rtt(rxRttval, rxSrtt, rxRto));
        Rtt(rxRttval, rxSrtt, rxRto) == if rtt >= 0 then ControlBlock.UpdateAck(cfg, t, rtt) else t
    {
      if Diff(current, m.ts) >= 0 {
        UpdateAck(Diff(current, m.ts));
      }
      ParseAck(m.sn);
      ShrinkBuf();
    }

    method AcceptPush(m: Msg)
      requires cfg.Valid() && Counted() && RecvInv(cfg.rcvWnd, Rcv())
      modifies `rcvBuf, `rcvQueue, `rcvNxt, `nrcvBuf, `nrcvQue, `acklist
      ensures Counted()
      ensures var r := old(Rcv());
        if BeforeWindowEnd(cfg.rcvWnd, r, m.sn)
        then Rcv() == ControlBlock.ParseData(cfg.rcvWnd, r, Payload(m)) && acklist == old(acklist) + [Ack(m.sn, m.ts)]
        else Rcv() == r && acklist == old(acklist)
    {
      if Diff(m.sn, Add(rcvNxt, cfg.rcvWnd)) < 0 {
        AckPush(m.sn, m.ts);
        if Diff(m.sn, rcvNxt) >= 0 {
          ParseData(Payload(m));
        }
      }
    }

    method Accept(m: Msg)
      requires cfg.Valid() && Counted() && RecvInv(cfg.rcvWnd, Rcv())
      requires ScanReady(Shrink(ControlBlock.ParseUna(Snd(), m.una)))
      modifies `rmtWnd, `sndUna, `sndBuf, `nsndBuf, `rxSrtt, `rxRttval, `rxRto,
               `rcvBuf, `rcvQueue, `rcvNxt, `nrcvBuf, `nrcvQue, `acklist, `askTell
      ensures Counted() && Snd() == ApplySnd(old(Snd()), m)
      ensures Rcv() == ApplyRcv(cfg.rcvWnd, old(Rcv()), m)
      ensures acklist == ApplyAcks(cfg.rcvWnd, old(Rcv()), old(acklist), m)
      ensures Rtt(rxRttval, rxSrtt, rxRto) == ApplyRtt(cfg, old(Rtt(rxRttval, rxSrtt, rxRto)), current, m)
      ensures rmtWnd == m.wnd && askTell == (old(askTell) || m.cmd == CMD_WASK)
    {
      AcceptUna(m);
      if m.cmd == CMD_ACK {
        AcceptAck(m);
      } else if m.cmd == CMD_PUSH {
        AcceptPush(m);
      } else if m.cmd == CMD_WASK {
        askTell := true;
      }
    }

    method ApplyCounted(m: Msg)
      requires cfg.Valid() && Counted() && RecvInv(cfg.rcvWnd, Rcv())
      requires ScanReady(Shrink(ControlBlock.ParseUna(Snd(), m.una)))
      modifies this
      ensures Counted() && View() == Apply(cfg, old(View()), m)
    {
      Accept(m);
    }

    // What one header with its payload does.
    method ApplyMsg(m: Msg)
      requires Valid()
      modifies this
      ensures Valid() && View() == Apply(cfg, old(View()), m)
    {
      ApplyInv(cfg, View(), m);
      ParseUnaInv(cfg, Snd(), m.una);
      ApplyCounted(m);
    }

    // Opens the congestion window after an input that acknowledged something new.
    method OpenWindow()
      requires cfg.Valid()
      modifies `cwnd, `incr
      ensures Cong() == Grow(cfg.Mss(), old(Cong()), true)
    {
      if cwnd < rmtWnd {
        var mss := cfg.Mss();
        if cwnd < ssthresh {
          cwnd := Add(cwnd, 1);
          incr := Add(incr, mss);
        } else {
          if incr < mss {
            incr := mss;
          }
          incr := Wrap(incr + Quotient(Wrap(mss * mss), incr) + mss / 16);
          if Wrap(Add(cwnd, 1) * mss) <= incr {
            cwnd := Quotient(Wrap(incr + mss - 1), mss);
          }
        }
        if cwnd > rmtWnd {
          cwnd := rmtWnd;
          incr := Wrap(rmtWnd * mss);
        }
      }
    }

    method Input(data: Bytes) returns (code: int)
      requires Valid()
      modifies this
      ensures Valid() && (View(), code) == ControlBlock.Input(cfg, old(View()), data)
    {
      hide Read, ApplyAll, NewestAck, Inv, ScanReady, ControlBlock.ParseFastack;
      InputInv(cfg, View(), data);
      InvGives(cfg, View());
      if Signed(Wrap(|data|)) < OVERHEAD {
        return -1;
      }
      var prevUna := sndUna;
      var newest: Newest;
      code, newest := InputLoop(data);
      if code == 0 {
        InvGives(cfg, View());
        FinishInput(newest, prevUna);
      }
    }

    method FinishInput(newest: Newest, prevUna: U32)
      requires cfg.Valid() && Counted() && ScanReady(Snd())
      modifies `sndBuf, `cwnd, `incr
      ensures Counted()
      ensures Snd() == if newest.Newest? then ControlBlock.ParseFastack(old(Snd()), newest.sn) else old(Snd())
      ensures Cong() == Grow(cfg.Mss(), old(Cong()), Diff(sndUna, prevUna) > 0)
    {
      if newest.Newest? {
        ParseFastack(newest.sn);
      }
      if Diff(sndUna, prevUna) > 0 {
        OpenWindow();
      }
    }

    // The input loop: one header and its payload at a time, until an error or too few bytes.
    method InputLoop(data: Bytes) returns (code: int, newest: Newest)
      requires Valid()
      modifies this
      ensures Valid()
      ensures var reading := Read(cfg.conv, cfg.token, data);
        View() == ApplyAll(cfg, old(View()), reading.msgs) && code == reading.code
        && newest == NewestAck(NoAck, reading.msgs)
    {
      var rest := data;
      newest := NoAck;
      while |rest| >= OVERHEAD
        invariant Valid()
        invariant Read(cfg.conv, cfg.token, rest).code == Read(cfg.conv, cfg.token, data).code
        invariant ApplyAll(cfg, View(), Read(cfg.conv, cfg.token, rest).msgs)
               == ApplyAll(cfg, old(View()), Read(cfg.conv, cfg.token, data).msgs)
        invariant NewestAck(newest, Read(cfg.conv, cfg.token, rest).msgs)
               == NewestAck(NoAck, Read(cfg.conv, cfg.token, data).msgs)
        decreases |rest|
      {
        if Decode32(rest, 0) != cfg.conv || Decode32(rest, 4) != cfg.token {
          return -1, newest;
        }
        var cmd, frg, wnd := rest[8], rest[9], Decode16(rest, 10);
        var ts, sn, una := Decode32(rest, 12), Decode32(rest, 16), Decode32(rest, 20);
        var len := Decode32(rest, 24);
        if |rest| - OVERHEAD < len || Signed(len) < 0 {
          return -2, newest;
        }
        if !KnownCmd(cmd) {
          return -3, newest;
        }
        var m := Msg(cmd, frg, wnd, ts, sn, una, rest[OVERHEAD..OVERHEAD + len]);
        assert TakeFront(cfg.conv, cfg.token, rest) == Accepted(m, rest[OVERHEAD + len..]);
        assert Read(cfg.conv, cfg.token, rest).msgs[1..] == Read(cfg.conv, cfg.token, rest[OVERHEAD + len..]).msgs;
        ApplyMsg(m);
        newest := NewerAck(newest, m);
        rest := rest[OVERHEAD + len..];
      }
      code := 0;
    }

    // Flush

    // `total` is what packing will have produced: the datagrams sent so far, then those that the
    // datagram being filled and the messages still to be said give.
    ghost predicate Owes(filled: Bytes, datagrams: seq<Bytes>, msgs: seq<Msg>, total: seq<Bytes>) {
      datagrams + Pack(cfg.conv, cfg.token, cfg.mtu, filled, msgs) == total
    }

    // Appends one message to the datagram being filled, sending that first when it is full.
    method Emit(m: Msg, filled0: Bytes, datagrams0: seq<Bytes>, ghost rest: seq<Msg>, ghost total: seq<Bytes>)
      returns (filled: Bytes, datagrams: seq<Bytes>)
      requires Owes(filled0, datagrams0, [m] + rest, total)
      ensures Owes(filled, datagrams, rest, total)
    {
      filled, datagrams := filled0, datagrams0;
      assert ([m] + rest)[0] == m && ([m] + rest)[1..] == rest;
      if |filled| + OVERHEAD + |m.data| > cfg.mtu {
        if filled != [] {
          datagrams := datagrams + [filled];
        }
        filled := [];
        assert filled + Encode(cfg.conv, cfg.token, m) == Encode(cfg.conv, cfg.token, m);
      }
      filled := filled + Encode(cfg.conv, cfg.token, m);
    }

    method EmitAcks(ghost rest: seq<Msg>, ghost total: seq<Bytes>) returns (filled: Bytes, datagrams: seq<Bytes>)
      requires Owes([], [], AckMsgs(cfg.rcvWnd, Rcv(), acklist) + rest, total)
      modifies `acklist
      ensures acklist == [] && Owes(filled, datagrams, rest, total)
    {
      filled, datagrams := [], [];
      ghost var msgs := AckMsgs(cfg.rcvWnd, Rcv(), acklist);
      assert msgs[0..] == msgs;
      var i := 0;
      while i < |acklist|
        invariant 0 <= i <= |acklist| == |msgs| && acklist == old(acklist)
        invariant Owes(filled, datagrams, msgs[i..] + rest, total)
      {
        var m := Control(cfg.rcvWnd, Rcv(), CMD_ACK, acklist[i]);
        assert msgs[i..] + rest == [m] + (msgs[i + 1..] + rest);
        filled, datagrams := Emit(m, filled, datagrams, msgs[i + 1..] + rest, total);
        i := i + 1;
      }
      assert msgs[|msgs|..] + rest == rest;
      acklist := [];
    }

    method UpdateProbe()
      modifies `probeWait, `tsProbe, `askSend
      ensures Probe(askSend, askTell, tsProbe, probeWait)
           == ProbeTimer(old(Probe(askSend, askTell, tsProbe, probeWait)), rmtWnd, current)
    {
      if rmtWnd == 0 {
        if probeWait == 0 {
          probeWait := PROBE_INIT;
          tsProbe := Add(current, probeWait);
        } else if Diff(current, tsProbe) >= 0 {
          if probeWait < PROBE_INIT {
            probeWait := PROBE_INIT;
          }
          probeWait := Wrap(probeWait + probeWait / 2);
          if probeWait > PROBE_LIMIT {
            probeWait := PROBE_LIMIT;
          }
          tsProbe := Add(current, probeWait);
          askSend := true;
        }
      } else {
        tsProbe := 0;
        probeWait := 0;
      }
    }

    method EmitProbes(last: Ack, filled0: Bytes, datagrams0: seq<Bytes>, ghost rest: seq<Msg>, ghost total: seq<Bytes>)
      returns (filled: Bytes, datagrams: seq<Bytes>)
      requires var probe := Probe(askSend, askTell, tsProbe, probeWait);
        Owes(filled0, datagrams0, ProbeMsgs(cfg.rcvWnd, Rcv(), probe, last) + rest, total)
      modifies `askSend, `askTell
      ensures !askSend && !askTell && Owes(filled, datagrams, rest, total)
    {
      filled, datagrams := filled0, datagrams0;
      var ask, tell := Control(cfg.rcvWnd, Rcv(), CMD_WASK, last), Control(cfg.rcvWnd, Rcv(), CMD_WINS, last);
      ghost var after := (if askTell then [tell] else []) + rest;
      assert ProbeMsgs(cfg.rcvWnd, Rcv(), Probe(askSend, askTell, tsProbe, probeWait), last) + rest
          == if askSend then [ask] + after else after;
      if askSend {
        filled, datagrams := Emit(ask, filled, datagrams, after, total);
      }
      if askTell {
        filled, datagrams := Emit(tell, filled, datagrams, rest, total);
      } else {
        assert after == rest;
      }
      askSend := false;
      askTell := false;
    }

    // The window test of admission.
    method WindowOpen(w: U32) returns (open: bool)
      requires InFlight(Snd()) <= 0xFFFF && w <= 0xFFFF
      ensures open <==> InFlight(Snd()) < w
    {
      open := Diff(sndNxt, Add(sndUna, w)) < 0;
      WindowTest(Snd(), w);
    }

    // Gives the next queued fragment a serial number.
    method AdmitOne(ghost s: Sender, ghost k: nat)
      requires Counted() && sndQueue != []
      requires k <= |s.queue| && Snd() == AdmitSome(s, k, current, rxRto)
      modifies `sndQueue, `sndBuf, `sndNxt, `nsndQue, `nsndBuf
      ensures Counted() && k < |s.queue| && Snd() == AdmitSome(s, k + 1, current, rxRto)
    {
      var seg := OutSeg(sndNxt, sndQueue[0], current, rxRto, 0, 0);
      AdmitStep(s, k, current, rxRto);
      sndQueue := sndQueue[1..];
      sndBuf := sndBuf + [seg];
      nsndQue := nsndQue - 1;
      nsndBuf := nsndBuf + 1;
      sndNxt := Add(sndNxt, 1);
    }

    // Gives queued fragments serial numbers while the window has room.
    method AdmitFragments(w: U32)
      requires Counted() && InFlight(Snd()) <= 0xFFFF && w <= 0xFFFF
      modifies `sndQueue, `sndBuf, `sndNxt, `nsndQue, `nsndBuf
      ensures Counted() && Snd() == Admit(old(Snd()), w, current, rxRto)
    {
      ghost var s := Snd();
      ghost var k := 0;
      var open := WindowOpen(w);
      while open && sndQueue != []
        invariant Counted() && 0 <= k <= |s.queue| && (k == 0 || InFlight(s) + k <= w)
        invariant Snd() == AdmitSome(s, k, current, rxRto)
        invariant open <==> InFlight(s) + k < w
        decreases |sndQueue|
      {
        AdmitOne(s, k);
        k := k + 1;
        AdvanceOff(s.una, s.nxt, k);
        open := WindowOpen(w);
      }
      assert k == Room(s, w);
    }

    // Decides for one segment of the send buffer whether and why it is sent, and updates it.
    method TouchSegment(i: nat) returns (why: Reason)
      requires cfg.Valid() && i < |sndBuf|
      modifies `sndBuf
      ensures why == Decide(cfg, current, old(sndBuf)[i])
      ensures sndBuf == old(sndBuf)[i := Touch(cfg, current, rxRto, old(sndBuf)[i])]
    {
      var seg := sndBuf[i];
      why := Keep;
      if seg.xmit == 0 {
        why := First;
        seg := seg.(xmit := 1, rto := rxRto);
        seg := seg.(resendts := Wrap(current + seg.rto + FirstDelay(cfg, rxRto)));
      } else if Diff(current, seg.resendts) >= 0 {
        why := Timeout;
        seg := seg.(xmit := Add(seg.xmit, 1));
        if cfg.nodelay == 0 {
          seg := seg.(rto := Wrap(seg.rto + Max(seg.rto, rxRto)));
        } else {
          var step := if cfg.nodelay < 2 then Signed(seg.rto) else rxRto;
          seg := seg.(rto := Wrap(seg.rto + HalfTowardsZero(step)));
        }
        seg := seg.(resendts := Add(current, seg.rto));
      } else if seg.fastack >= cfg.Resent() {
        if Signed(seg.xmit) <= cfg.fastlimit || cfg.fastlimit <= 0 {
          why := Fast;
          seg := seg.(xmit := Add(seg.xmit, 1), fastack := 0, resendts := Add(current, seg.rto));
        }
      }
      sndBuf := sndBuf[i := seg];
    }

    // Sends one segment of the send buffer if it is new, timed out or overtaken.
    method SendSegment(i: nat, filled0: Bytes, datagrams0: seq<Bytes>, ghost rest: seq<Msg>, ghost total: seq<Bytes>)
      returns (filled: Bytes, datagrams: seq<Bytes>, why: Reason)
      requires cfg.Valid() && i < |sndBuf|
      requires Owes(filled0, datagrams0, DataSaid(cfg, Rcv(), current, sndBuf[i]) + rest, total)
      modifies `sndBuf, `xmit, `dead
      ensures var seg := old(sndBuf)[i];
        && why == Decide(cfg, current, seg)
        && sndBuf == old(sndBuf)[i := Touch(cfg, current, rxRto, seg)]
        && xmit == (if why == Timeout then Add(old(xmit), 1) else old(xmit))
        && dead == (old(dead) || Exhausted(cfg, current, rxRto, seg))
      ensures Owes(filled, datagrams, rest, total)
    {
      why := TouchSegment(i);
      if why == Timeout {
        xmit := Add(xmit, 1);
      }
      if why == Keep {
        filled, datagrams := filled0, datagrams0;
        assert [] + rest == rest;
      } else {
        var m := DataMsg(cfg.rcvWnd, Rcv(), current, sndBuf[i]);
        assert m == DataMsg(cfg.rcvWnd, Rcv(), current, old(sndBuf)[i]);
        filled, datagrams := Emit(m, filled0, datagrams0, rest, total);
        if sndBuf[i].xmit >= cfg.deadLink {
          dead := true;
        }
      }
    }

    // One round of the loop over the send buffer, against the buffer as the loop found it.
    method SendNext(i: nat, filled0: Bytes, datagrams0: seq<Bytes>, ghost buf: seq<OutSeg>, ghost total: seq<Bytes>)
      returns (filled: Bytes, datagrams: seq<Bytes>, why: Reason)
      requires cfg.Valid() && i < |buf|
      requires TouchedUpTo(cfg, current, rxRto, buf, sndBuf, i)
      requires Owes(filled0, datagrams0, DataMsgs(cfg, Rcv(), current, buf[i..]), total)
      modifies `sndBuf, `xmit, `dead
      ensures why == Decide(cfg, current, buf[i])
      ensures TouchedUpTo(cfg, current, rxRto, buf, sndBuf, i + 1)
      ensures xmit == if why == Timeout then Add(old(xmit), 1) else old(xmit)
      ensures dead == (old(dead) || Exhausted(cfg, current, rxRto, buf[i]))
      ensures Owes(filled, datagrams, DataMsgs(cfg, Rcv(), current, buf[i + 1..]), total)
    {
      DataStep(cfg, Rcv(), current, buf, i);
      filled, datagrams, why := SendSegment(i, filled0, datagrams0, DataMsgs(cfg, Rcv(), current, buf[i + 1..]), total);
    }

    // The loop over the send buffer after `i` rounds.
    ghost predicate Sent(buf: seq<OutSeg>, i: nat, start: Tally, change: nat, lost: bool, filled: Bytes,
                         datagrams: seq<Bytes>, total: seq<Bytes>)
      requires cfg.Valid()
      reads this
    {
      && i <= |buf| && TouchedUpTo(cfg, current, rxRto, buf, sndBuf, i)
      && Tallied(cfg, current, rxRto, start, buf[..i], Tally(change, lost, xmit, dead))
      && Owes(filled, datagrams, DataMsgs(cfg, Rcv(), current, buf[i..]), total)
    }

    method SendCounted(i: nat, filled0: Bytes, datagrams0: seq<Bytes>, change0: nat, lost0: bool,
                       ghost buf: seq<OutSeg>, ghost start: Tally, ghost total: seq<Bytes>)
      returns (filled: Bytes, datagrams: seq<Bytes>, change: nat, lost: bool)
      requires cfg.Valid() && i < |buf|
      requires Sent(buf, i, start, change0, lost0, filled0, datagrams0, total)
      modifies `sndBuf, `xmit, `dead
      ensures Sent(buf, i + 1, start, change, lost, filled, datagrams, total)
    {
      TallyStep(cfg, current, rxRto, start, buf[..i], buf[i], Tally(change0, lost0, xmit, dead));
      assert buf[..i + 1] == buf[..i] + [buf[i]];
      change, lost := change0, lost0;
      var why;
      filled, datagrams, why := SendNext(i, filled0, datagrams0, buf, total);
      if why == Timeout {
        lost := true;
      } else if why == Fast {
        change := change + 1;
      }
    }

    // Sends every segment that is new, timed out or overtaken.
    method EmitData(filled0: Bytes, datagrams0: seq<Bytes>, ghost total: seq<Bytes>)
      returns (filled: Bytes, datagrams: seq<Bytes>, change: nat, lost: bool)
      requires cfg.Valid()
      requires Owes(filled0, datagrams0, DataMsgs(cfg, Rcv(), current, sndBuf), total)
      modifies `sndBuf, `xmit, `dead
      ensures sndBuf == TouchAll(cfg, current, rxRto, old(sndBuf))
      ensures Tallied(cfg, current, rxRto, Tally(0, false, old(xmit), old(dead)), old(sndBuf),
        Tally(change, lost, xmit, dead))
      ensures Owes(filled, datagrams, [], total)
    {
      ghost var buf := sndBuf;
      ghost var start := Tally(0, false, xmit, dead);
      filled, datagrams, change, lost := filled0, datagrams0, 0, false;
      assert buf[0..] == buf;
      var i := 0;
      while i < |sndBuf|
        invariant Sent(buf, i, start, change, lost, filled, datagrams, total)
      {
        filled, datagrams, change, lost := SendCounted(i, filled, datagrams, change, lost, buf, start, total);
        i := i + 1;
      }
      assert buf[..|buf|] == buf && buf[|buf|..] == [];
      assert sndBuf == TouchAll(cfg, current, rxRto, buf);
    }

    // Congestion control after the data segments: `w` is the window of this flush.
    method ReactToLoss(change: nat, lost: bool, w: U32)
      requires cfg.Valid()
      modifies `cwnd, `ssthresh, `incr
      ensures Cong() == React(cfg, old(Cong()), InFlight(Snd()), change > 0, lost, w)
    {
      var mss := cfg.Mss();
      if change > 0 {
        var inFlight := Off(sndUna, sndNxt);
        ssthresh := inFlight / 2;
        if ssthresh < THRESH_MIN {
          ssthresh := THRESH_MIN;
        }
        cwnd := Add(ssthresh, cfg.Resent());
        incr := Wrap(cwnd * mss);
      }
      if lost {
        ssthresh := w / 2;
        if ssthresh < THRESH_MIN {
          ssthresh := THRESH_MIN;
        }
        cwnd := 1;
        incr := mss;
      }
      if cwnd < 1 {
        cwnd := 1;
        incr := mss;
      }
    }

    // Acknowledgements and probes of a flush.
    method FlushControl(ghost rest: seq<Msg>, ghost total: seq<Bytes>) returns (filled: Bytes, datagrams: seq<Bytes>)
      requires var probe := ProbeTimer(Probe(askSend, askTell, tsProbe, probeWait), rmtWnd, current);
        Owes([], [], AckMsgs(cfg.rcvWnd, Rcv(), acklist)
                     + (ProbeMsgs(cfg.rcvWnd, Rcv(), probe, LastAck(acklist)) + rest), total)
      modifies `acklist, `askSend, `askTell, `tsProbe, `probeWait
      ensures acklist == []
      ensures Probe(askSend, askTell, tsProbe, probeWait)
           == Answered(ProbeTimer(old(Probe(askSend, askTell, tsProbe, probeWait)), rmtWnd, current))
      ensures Owes(filled, datagrams, rest, total)
    {
      var last := if acklist == [] then Ack(0, 0) else acklist[|acklist| - 1];
      ghost var probe := ProbeTimer(Probe(askSend, askTell, tsProbe, probeWait), rmtWnd, current);
      filled, datagrams := EmitAcks(ProbeMsgs(cfg.rcvWnd, Rcv(), probe, last) + rest, total);
      UpdateProbe();
      filled, datagrams := EmitProbes(last, filled, datagrams, rest, total);
    }

    // Admission of a flush: `w` is the window it uses.
    method AdmitQueued(ghost p: Sender) returns (w: U32)
      requires Counted() && InFlight(Snd()) <= 0xFFFF
      requires p == Admit(Snd(), EffectiveWnd(cfg, Cong()), current, rxRto)
      modifies `sndQueue, `sndBuf, `sndNxt, `nsndQue, `nsndBuf
      ensures Counted() && w == EffectiveWnd(cfg, Cong())
      ensures Snd() == p
    {
      w := Min(cfg.sndWnd, rmtWnd);
      if !cfg.nocwnd {
        w := Min(cwnd, w);
      }
      AdmitFragments(w);
    }

    // Data segments and congestion control of a flush.
    method FlushData(w: U32, filled0: Bytes, datagrams0: seq<Bytes>, ghost p: Sender, ghost total: seq<Bytes>)
      returns (datagrams: seq<Bytes>)
      requires cfg.Valid() && Snd() == p && w == EffectiveWnd(cfg, Cong())
      requires Owes(filled0, datagrams0, DataMsgs(cfg, Rcv(), current, p.buf), total)
      modifies `sndBuf, `xmit, `dead, `cwnd, `ssthresh, `incr
      ensures sndBuf == TouchAll(cfg, current, rxRto, p.buf)
      ensures Cong() == Reacted(cfg, old(Cong()), current, p)
      ensures xmit == Wrap(old(xmit) + CountReason(cfg, current, p.buf, Timeout))
      ensures dead == (old(dead) || AnyDead(cfg, current, rxRto, p.buf))
      ensures datagrams == total
    {
      var filled, change, lost;
      filled, datagrams, change, lost := EmitData(filled0, datagrams0, total);
      if filled != [] {
        datagrams := datagrams + [filled];
      }
      ReactToLoss(change, lost, w);
    }

    // Acknowledgements, probes and admission of a flush; the data of `p` is still owed.
    method FlushFront(ghost p: Sender, ghost total: seq<Bytes>) returns (w: U32, filled: Bytes, datagrams: seq<Bytes>)
      requires cfg.Valid() && Counted() && InFlight(Snd()) <= 0xFFFF
      requires p == Admit(Snd(), EffectiveWnd(cfg, Cong()), current, rxRto)
      requires var probe := ProbeTimer(Probe(askSend, askTell, tsProbe, probeWait), rmtWnd, current);
        Owes([], [], AckMsgs(cfg.rcvWnd, Rcv(), acklist)
                     + (ProbeMsgs(cfg.rcvWnd, Rcv(), probe, LastAck(acklist)) + DataMsgs(cfg, Rcv(), current, p.buf)),
                       total)
      modifies `acklist, `askSend, `askTell, `tsProbe, `probeWait, `sndQueue, `sndBuf, `sndNxt, `nsndQue, `nsndBuf
      ensures Counted() && Snd() == p && acklist == [] && w == EffectiveWnd(cfg, Cong())
      ensures Probe(askSend, askTell, tsProbe, probeWait)
           == Answered(ProbeTimer(old(Probe(askSend, askTell, tsProbe, probeWait)), rmtWnd, current))
      ensures Owes(filled, datagrams, DataMsgs(cfg, Rcv(), current, p.buf), total)
    {
      hide ProbeTimer, AckMsgs, ProbeMsgs, DataMsgs, Owes, Admit, Answered, EffectiveWnd;
      filled, datagrams := FlushControl(DataMsgs(cfg, Rcv(), current, p.buf), total);
      w := AdmitQueued(p);
    }

    method FlushParts(ghost p: Sender, ghost total: seq<Bytes>) returns (datagrams: seq<Bytes>)
      requires cfg.Valid() && Counted() && InFlight(Snd()) <= 0xFFFF
      requires p == Admit(Snd(), EffectiveWnd(cfg, Cong()), current, rxRto)
      requires var probe := ProbeTimer(Probe(askSend, askTell, tsProbe, probeWait), rmtWnd, current);
        Owes([], [], AckMsgs(cfg.rcvWnd, Rcv(), acklist)
                     + (ProbeMsgs(cfg.rcvWnd, Rcv(), probe, LastAck(acklist)) + DataMsgs(cfg, Rcv(), current, p.buf)),
                       total)
      modifies `acklist, `askSend, `askTell, `tsProbe, `probeWait, `sndQueue, `sndBuf, `sndNxt, `nsndQue, `nsndBuf,
               `xmit, `dead, `cwnd, `ssthresh, `incr
      ensures Counted() && Snd() == p.(buf := TouchAll(cfg, current, rxRto, p.buf)) && acklist == []
      ensures Cong() == Reacted(cfg, old(Cong()), current, p)
      ensures Probe(askSend, askTell, tsProbe, probeWait)
           == Answered(ProbeTimer(old(Probe(askSend, askTell, tsProbe, probeWait)), rmtWnd, current))
      ensures xmit == Wrap(old(xmit) + CountReason(cfg, current, p.buf, Timeout))
      ensures dead == (old(dead) || AnyDead(cfg, current, rxRto, p.buf))
      ensures datagrams == total
    {
      hide ProbeTimer, AckMsgs, ProbeMsgs, DataMsgs, Owes, Admit, Answered, CountReason, AnyDead, EffectiveWnd;
      var filled, w;
      w, filled, datagrams := FlushFront(p, total);
      datagrams := FlushData(w, filled, datagrams, p, total);
    }

    method FlushCounted(ghost total: seq<Bytes>) returns (datagrams: seq<Bytes>)
      requires cfg.Valid() && Counted() && InFlight(Snd()) <= 0xFFFF && updated
      requires Owes([], [], FlushMsgs(cfg, View()), total)
      modifies this
      ensures Counted() && View() == FlushState(cfg, old(View())) && datagrams == total
    {
      hide ProbeTimer, AckMsgs, ProbeMsgs, DataMsgs, Owes, Admit, TouchAll, Reacted, Answered, CountReason, AnyDead;
      datagrams := FlushParts(Prepared(cfg, View()), total);
    }

    // Sends what is due; the datagrams go to the output callback in this order.
    method Flush() returns (datagrams: seq<Bytes>)
      requires Valid()
      modifies this
      ensures Valid() && View() == FlushState(cfg, old(View())) && datagrams == FlushOut(cfg, old(View()))
    {
      hide FlushMsgs, Pack;
      FlushInv(cfg, View());
      if !updated {
        return [];
      }
      ghost var total := FlushOut(cfg, View());
      assert [] + total == total;
      datagrams := FlushCounted(total);
    }

    // The clock step of an update, and whether a flush is due; the next one is scheduled then.
    method AdvanceClock(now: U32) returns (due: bool)
      requires cfg.Valid()
      modifies `current, `updated, `tsFlush
      ensures var c := Tick(old(Clock(current, updated, tsFlush)), now);
        due == FlushDue(c) && Clock(current, updated, tsFlush) == if due then NextFlush(cfg.interval, c) else c
    {
      current := now;
      if !updated {
        updated := true;
        tsFlush := current;
      }
      var slap := Diff(current, tsFlush);
      if slap >= 10000 || slap < -10000 {
        tsFlush := current;
        slap := 0;
      }
      if slap >= 0 {
        tsFlush := Add(tsFlush, cfg.interval);
        if Diff(current, tsFlush) >= 0 {
          tsFlush := Add(current, cfg.interval);
        }
      }
      due := slap >= 0;
    }

    method Update(now: U32) returns (datagrams: seq<Bytes>)
      requires Valid()
      modifies this
      ensures Valid() && View() == UpdateState(cfg, old(View()), now)
      ensures var due := FlushDue(Tick(old(View()).clock, now));
        if due then datagrams == FlushOut(cfg, Ticked(cfg, old(View()), now))
        else datagrams == []
    {
      hide Inv, FlushState, FlushOut, Tick, NextFlush;
      InvGives(cfg, View());
      var due := AdvanceClock(now);
      assert View() == Ticked(cfg, old(View()), now);
      datagrams := [];
      if due {
        datagrams := Flush();
      }
    }

    // When to call `Update` again if nothing is sent or received in between.
    method Check(now: U32) returns (when: U32)
      requires Valid()
      ensures when == ControlBlock.Check(cfg, View(), now)
    {
      if !updated {
        return now;
      }
      var slap := Diff(now, tsFlush);
      if slap >= 10000 || slap < -10000 || slap >= 0 {
        return now;
      }
      var soonest := -slap;
      SoonestTimerIs(sndBuf, now, soonest);
      var i := 0;
      while i < |sndBuf|
        invariant 0 <= i <= |sndBuf|
        invariant forall j :: 0 <= j < i ==> Diff(sndBuf[j].resendts, now) > 0
        invariant Min(soonest, SoonestTimer(sndBuf[i..], now, -slap)) == SoonestTimer(sndBuf, now, -slap)
        invariant 0 < soonest <= -slap
      {
        var diff := Diff(sndBuf[i].resendts, now);
        if diff <= 0 {
          return now;
        }
        assert sndBuf[i..][1..] == sndBuf[i + 1..];
        soonest := Min(soonest, diff);
        i := i + 1;
      }
      when := Add(now, Min(cfg.interval, soonest));
    }

    method WaitSnd() returns (n: nat)
      requires Valid()
      ensures n == |sndBuf| + |sndQueue|
    {
      n := nsndBuf + nsndQue;
    }
  }
}
