/** When data gets through: which segments the peer's window refuses, and that one exchange of
    flushes empties the send buffer. */
module Progress {
  import opened Serial
  import opened Wire
  import opened ControlBlock
  import opened Endpoint
  import opened Network

  // Every number assigned has been sent

  predicate SaidData(said: set<Msg>, i: int) {
    exists m :: m in said && m.cmd == CMD_PUSH && m.sn == i
  }

  predicate AllSent(p: Peer) {
    forall i :: 0 <= i < p.cb.snd.nxt ==> SaidData(Said(p.cfg, p.out), i)
  }

  lemma {:induction false} ReadAllSource(conv: U32, token: U32, datagrams: seq<Bytes>, m: Msg)
    requires m in ReadAll(conv, token, datagrams)
    ensures exists d :: d in datagrams && m in Read(conv, token, d).msgs
  {
    if m in Read(conv, token, datagrams[0]).msgs {
      assert datagrams[0] in datagrams;
    } else {
      ReadAllSource(conv, token, datagrams[1..], m);
      var d :| d in datagrams[1..] && m in Read(conv, token, d).msgs;
      assert d in datagrams;
    }
  }

  lemma {:induction false} DataMsgsAll(cfg: Config, r: Receiver, now: U32, buf: seq<OutSeg>, x: OutSeg)
    requires cfg.Valid() && x in buf && Decide(cfg, now, x) != Keep
    ensures DataMsg(cfg.rcvWnd, r, now, x) in DataMsgs(cfg, r, now, buf)
  {
    if x != buf[0] {
      DataMsgsAll(cfg, r, now, buf[1..], x);
    }
  }

  // What a flush says is in the datagrams it hands to the network.
  lemma FlushIsSaid(p: Peer, m: Msg)
    requires Sound(p) && p.cb.clock.updated && m in FlushMsgs(p.cfg, p.cb)
    ensures m in Said(p.cfg, Flushed(p).out)
  {
    FlushReadBack(p.cfg, p.cb);
    ReadAllSource(p.cfg.conv, p.cfg.token, FlushOut(p.cfg, p.cb), m);
    var d :| d in FlushOut(p.cfg, p.cb) && m in Read(p.cfg.conv, p.cfg.token, d).msgs;
    assert d in Flushed(p).out && m in Msgs(p.cfg, d);
  }

  // A segment that a flush sends is said.
  lemma SegmentIsSaid(p: Peer, x: OutSeg)
    requires Sound(p) && p.cb.clock.updated && x in Prepared(p.cfg, p.cb).buf
    requires Decide(p.cfg, p.cb.clock.current, x) != Keep
    ensures SaidData(Said(p.cfg, Flushed(p).out), x.sn)
  {
    var m := DataMsg(p.cfg.rcvWnd, p.cb.rcv, p.cb.clock.current, x);
    DataMsgsAll(p.cfg, p.cb.rcv, p.cb.clock.current, Prepared(p.cfg, p.cb).buf, x);
    assert m in FlushMsgs(p.cfg, p.cb);
    FlushIsSaid(p, m);
  }

  lemma SaidGrows(cfg: Config, out: set<Bytes>, more: set<Bytes>, i: int)
    requires out <= more && SaidData(Said(cfg, out), i)
    ensures SaidData(Said(cfg, more), i)
  {
    var m :| m in Said(cfg, out) && m.cmd == CMD_PUSH && m.sn == i;
    assert m in Said(cfg, more);
  }

  lemma FlushSent(p: Peer, q: Peer)
    requires Linked(p, q) && AllSent(p)
    ensures AllSent(Flushed(p))
  {
    var t := Flushed(p);
    if p.cb.clock.updated {
      var s, now, rto := p.cb.snd, p.cb.clock.current, p.cb.rtt.rto;
      var w := EffectiveWnd(p.cfg, p.cb.cong);
      forall i | 0 <= i < t.cb.snd.nxt ensures SaidData(Said(t.cfg, t.out), i) {
        if i < s.nxt {
          SaidGrows(p.cfg, p.out, t.out, i);
        } else {
          AdmittedInBuffer(StreamOf(p), s, w, now, rto, i);
          SegmentIsSaid(p, Admitted(s, i - s.nxt, now, rto));
        }
      }
    } else {
      assert t == p;
    }
  }

  lemma AdmittedInBuffer(f: seq<Frag>, s: Sender, w: nat, now: U32, rto: U32, i: int)
    requires Numbered(f, s) && s.nxt <= i < Admit(s, w, now, rto).nxt
    ensures i - s.nxt < |s.queue|
    ensures Admitted(s, i - s.nxt, now, rto) in Admit(s, w, now, rto).buf
    ensures Admitted(s, i - s.nxt, now, rto).sn == i && Admitted(s, i - s.nxt, now, rto).xmit == 0
  {
    var t := Admit(s, w, now, rto);
    AdvanceSmall(s.nxt, Room(s, w));
    AdvanceSmall(s.nxt, i - s.nxt);
    assert t.buf[|s.buf| + (i - s.nxt)] == Admitted(s, i - s.nxt, now, rto);
  }

  lemma SameSent(p: Peer, t: Peer)
    requires AllSent(p) && t.cfg == p.cfg && t.out == p.out && t.cb.snd.nxt == p.cb.snd.nxt
    ensures AllSent(t)
  {
  }

  lemma UpdateSent(p: Peer, q: Peer, now: U32)
    requires Linked(p, q) && AllSent(p)
    ensures AllSent(Act(p, q, DoUpdate(now)))
  {
    hide Inv, Flow, AllSent, FlushState, FlushOut;
    SoundConfig(p);
    var ticked := p.(cb := Ticked(p.cfg, p.cb, now));
    TickLinked(p, q, now);
    SameSent(p, ticked);
    FlushSent(ticked, q);
  }

  // Only a flush numbers fragments.
  lemma NoFlushNumbersNothing(p: Peer, q: Peer, action: Action)
    requires Sound(p) && !action.DoFlush? && !action.DoUpdate?
    ensures Act(p, q, action).out == p.out && Act(p, q, action).cb.snd.nxt == p.cb.snd.nxt
  {
    if action.DoInput? {
      InputInv(p.cfg, p.cb, action.datagram);
    }
  }

  lemma ActSent(p: Peer, q: Peer, action: Action)
    requires Linked(p, q) && AllSent(p)
    ensures AllSent(Act(p, q, action))
  {
    if action.DoFlush? {
      FlushSent(p, q);
    } else if action.DoUpdate? {
      UpdateSent(p, q, action.now);
    } else {
      NoFlushNumbersNothing(p, q, action);
      SameSent(p, Act(p, q, action));
    }
  }

  lemma {:induction false} RunSent(n: Net, steps: seq<Step>)
    requires Linked(n.a, n.b) && AllSent(n.a) && AllSent(n.b) && FewBoth(Run(n, steps))
    ensures AllSent(Run(n, steps).a) && AllSent(Run(n, steps).b)
    decreases |steps|
  {
    if steps != [] {
      FewBefore(Next(n, steps[0]), steps[1..]);
      NextLinked(n, steps[0]);
      LinkedSymmetric(n.a, n.b);
      if steps[0].atA {
        ActSent(n.a, n.b, steps[0].action);
      } else {
        ActSent(n.b, n.a, steps[0].action);
      }
      RunSent(Next(n, steps[0]), steps[1..]);
    }
  }

  // In every run: each number assigned has been sent in some datagram.
  lemma NumberedIsSent(ca: Config, cb: Config, steps: seq<Step>, n: Net)
    requires RunOf(ca, cb, steps, n)
    ensures AllSent(n.a) && AllSent(n.b)
  {
    StartLinked(ca, cb);
    RunSent(Start(ca, cb), steps);
  }

  // The peer's window

  // Some segment of the send buffer would be refused, if it arrived now, as at or beyond the end of
  // the receive window.
  predicate SomeRefused(s: Peer, r: Peer)
    requires r.cfg.Valid()
  {
    exists x :: x in s.cb.snd.buf && !BeforeWindowEnd(r.cfg.rcvWnd, r.cb.rcv, x.sn)
  }

  // The signed comparison of the code refuses what is at or past the end of the window, and what
  // lies more than 2^31 before it.
  lemma RefusalTest(r: Peer, sn: U32)
    requires r.cfg.Valid() && sn < HALF && r.cb.rcv.nxt < HALF
    ensures BeforeWindowEnd(r.cfg.rcvWnd, r.cb.rcv, sn) <==> 0 < r.cb.rcv.nxt + r.cfg.rcvWnd - sn <= HALF
  {
  }

  // The oldest number in flight lies more than 2^31 before the end of the peer's window.
  predicate TooOld(s: Peer, r: Peer) {
    s.cb.snd.buf != [] && r.cb.rcv.nxt + r.cfg.rcvWnd - s.cb.snd.una > HALF
  }

  lemma OldestInFlight(s: Peer)
    requires Sound(s) && s.cb.snd.buf != []
    ensures s.cb.snd.buf[0].sn == s.cb.snd.una
  {
  }

  // When does the window refuse a segment in flight? Exactly when the sender has numbered past the
  // end of the window, or the window is so large that the oldest number lies too far before it.
  lemma RefusedIff(ca: Config, cb: Config, steps: seq<Step>, n: Net)
    requires RunOf(ca, cb, steps, n)
    ensures SomeRefused(n.a, n.b) <==> n.a.cb.snd.nxt > n.b.cb.rcv.nxt + n.b.cfg.rcvWnd || TooOld(n.a, n.b)
  {
    Reachable(ca, cb, steps, n);
    RefusedLinked(n.a, n.b);
  }

  lemma RefusedLinked(s: Peer, r: Peer)
    requires Linked(s, r)
    ensures SomeRefused(s, r) <==> s.cb.snd.nxt > r.cb.rcv.nxt + r.cfg.rcvWnd || TooOld(s, r)
  {
    var nxt, end := s.cb.snd.nxt, r.cb.rcv.nxt + r.cfg.rcvWnd;
    UnaBelowNxt(s, r);
    if nxt > end {
      LastHeld(s, r);
      var x :| x in s.cb.snd.buf && x.sn == nxt - 1;
      RefusalTest(r, x.sn);
    } else if TooOld(s, r) {
      OldestInFlight(s);
      var x := s.cb.snd.buf[0];
      assert x in s.cb.snd.buf;
      RefusalTest(r, x.sn);
    } else {
      forall x | x in s.cb.snd.buf ensures BeforeWindowEnd(r.cfg.rcvWnd, r.cb.rcv, x.sn) {
        InFlightFromUna(s, r, x);
        RefusalTest(r, x.sn);
      }
    }
  }

  // The number last assigned is still held when it lies at or past the end of the window.
  lemma LastHeld(s: Peer, r: Peer)
    requires Linked(s, r) && s.cb.snd.nxt > r.cb.rcv.nxt + r.cfg.rcvWnd
    ensures Holds(s.cb.snd, s.cb.snd.nxt - 1)
  {
    var i := s.cb.snd.nxt - 1;
    forall x | x in r.cb.rcv.buf ensures x.sn != i {
      var j :| 0 <= j < |r.cb.rcv.buf| && r.cb.rcv.buf[j] == x;
      assert Off(r.cb.rcv.nxt, x.sn) < r.cfg.rcvWnd;
    }
    assert Holds(s.cb.snd, i) || Got(r.cb.rcv, i);
  }

  lemma InFlightFromUna(s: Peer, r: Peer, x: OutSeg)
    requires Linked(s, r) && x in s.cb.snd.buf
    ensures s.cb.snd.una <= x.sn < s.cb.snd.nxt
  {
    UnaBelowNxt(s, r);
    var j :| 0 <= j < |s.cb.snd.buf| && s.cb.snd.buf[j] == x;
    assert Off(s.cb.snd.una, x.sn) < InFlight(s.cb.snd);
  }

  // While the peer's receive queue has a free place, the sender has not overtaken it: everything
  // before its first unacknowledged number has been handed on.
  lemma NotOvertaken(s: Peer, r: Peer)
    requires Linked(s, r) && |r.cb.rcv.queue| < r.cfg.rcvWnd
    ensures s.cb.snd.una <= r.cb.rcv.nxt
  {
    var snd, rcv := s.cb.snd, r.cb.rcv;
    UnaBelowNxt(s, r);
    NextNotGot(r.cfg.rcvWnd, rcv);
    if Holds(snd, rcv.nxt) {
      HeldFromUna(s, rcv.nxt);
    }
  }

  // The next expected number cannot wait in the receive buffer while the queue has a place for it.
  lemma NextNotGot(wnd: nat, r: Receiver)
    requires RecvInv(wnd, r) && |r.queue| < wnd
    ensures !Got(r, r.nxt)
  {
    forall x | x in r.buf ensures x.sn != r.nxt {
      var j :| 0 <= j < |r.buf| && r.buf[j] == x;
      assert j > 0 ==> Off(r.nxt, r.buf[0].sn) < Off(r.nxt, r.buf[j].sn);
    }
  }

  // Whatever the sender holds is numbered from `una` on.
  lemma HeldFromUna(s: Peer, i: int)
    requires Sound(s) && Holds(s.cb.snd, i)
    ensures Off(s.cb.snd.una, i) < InFlight(s.cb.snd)
  {
    var snd := s.cb.snd;
    var x :| x in snd.buf && x.sn == i;
    var j :| 0 <= j < |snd.buf| && snd.buf[j] == x;
  }

  lemma UnaBelowNxt(s: Peer, r: Peer)
    requires Linked(s, r)
    ensures s.cb.snd.una <= s.cb.snd.nxt && s.cb.snd.nxt == s.cb.snd.una + InFlight(s.cb.snd)
  {
    if s.cb.snd.buf != [] {
      assert s.cb.snd.buf[0] in s.cb.snd.buf;
    }
  }

  // So with a send window no larger than the peer's receive window, while the peer's receive queue
  // has room, nothing in flight is refused, unless that window comes within 65535 of 2^31.
  lemma NotRefusedWhileRoom(ca: Config, cb: Config, steps: seq<Step>, n: Net)
    requires RunOf(ca, cb, steps, n)
    requires n.a.cfg.sndWnd <= n.b.cfg.rcvWnd && |n.b.cb.rcv.queue| < n.b.cfg.rcvWnd
    ensures SomeRefused(n.a, n.b) <==> TooOld(n.a, n.b)
    ensures n.b.cfg.rcvWnd + 0xFFFF <= HALF ==> !SomeRefused(n.a, n.b)
  {
    Reachable(ca, cb, steps, n);
    NotOvertaken(n.a, n.b);
    UnaBelowNxt(n.a, n.b);
    RefusedLinked(n.a, n.b);
  }

  // One exchange

  // Datagrams handed over in order.
  function InputAll(p: Peer, datagrams: seq<Bytes>): Peer
    requires Sound(p)
    decreases |datagrams|
  {
    if datagrams == [] then p
    else
      InputInv(p.cfg, p.cb, datagrams[0]);
      InputAll(p.(cb := Input(p.cfg, p.cb, datagrams[0]).0), datagrams[1..])
  }

  lemma {:induction false} InputAllLinked(p: Peer, q: Peer, datagrams: seq<Bytes>)
    requires Linked(p, q) && forall d :: d in datagrams ==> d in q.out
    ensures Linked(InputAll(p, datagrams), q) && InputAll(p, datagrams).cfg == p.cfg
    decreases |datagrams|
  {
    if datagrams != [] {
      InputFlow(p, q, datagrams[0]);
      InputInv(p.cfg, p.cb, datagrams[0]);
      InputAllLinked(p.(cb := Input(p.cfg, p.cb, datagrams[0]).0), q, datagrams[1..]);
    }
  }

  predicate SaysData(msgs: seq<Msg>, sn: int) {
    exists m :: m in msgs && m.cmd == CMD_PUSH && m.sn == sn
  }

  predicate SaysAck(msgs: seq<Msg>, sn: int) {
    exists m :: m in msgs && m.cmd == CMD_ACK && m.sn == sn
  }

  predicate Acked(acks: seq<Ack>, sn: int) {
    exists a :: a in acks && a.sn == sn
  }

  // The receiving half: every data segment inside the window is acknowledged.

  // The window of `p` reaches every number of the sender `q`, and none is so old that the signed
  // comparison misreads it.
  predicate Reaches(p: Peer, q: Peer, sn: U32) {
    sn < q.cb.snd.nxt <= p.cb.rcv.nxt + p.cfg.rcvWnd && q.cb.snd.nxt + p.cfg.rcvWnd - sn <= HALF
  }

  lemma ApplyAcked(p: Peer, q: Peer, m: Msg, sn: U32)
    requires Linked(p, q) && FromPeer(q, m) && Reaches(p, q, sn)
    ensures Reaches(p.(cb := Apply(p.cfg, p.cb, m)), q, sn)
    ensures Acked(p.cb.acklist, sn) || (m.cmd == CMD_PUSH && m.sn == sn) ==> Acked(Apply(p.cfg, p.cb, m).acklist, sn)
  {
    var t := p.(cb := Apply(p.cfg, p.cb, m));
    ReceiverMoves(q, p, m);
    if Acked(p.cb.acklist, sn) {
      var a :| a in p.cb.acklist && a.sn == sn;
      assert a in t.cb.acklist;
    } else if m.cmd == CMD_PUSH && m.sn == sn {
      RefusalTest(p, sn);
      assert Ack(m.sn, m.ts) in t.cb.acklist;
    }
  }

  // The next expected number only moves forward.
  lemma ReceiverMoves(s: Peer, r: Peer, m: Msg)
    requires Sound(r) && Flow(s, r) && Faithful(StreamOf(s), s.cb.snd.nxt, m)
    ensures r.cb.rcv.nxt <= Apply(r.cfg, r.cb, m).rcv.nxt
    ensures r.cb.rcv.nxt < HALF
  {
    var done := |Stream(r.delivered, s.cfg.Mss())|;
    ApplyRcvFlow(StreamOf(s), s.cb.snd.nxt, done, r.cfg.rcvWnd, r.cb.rcv, r.cb.acklist, m);
  }

  lemma {:induction false} ApplyAllAcked(p: Peer, q: Peer, msgs: seq<Msg>, sn: U32)
    requires Linked(p, q) && (forall m :: m in msgs ==> FromPeer(q, m)) && Reaches(p, q, sn)
    ensures Reaches(p.(cb := ApplyAll(p.cfg, p.cb, msgs)), q, sn)
    ensures Acked(p.cb.acklist, sn) || SaysData(msgs, sn) ==> Acked(ApplyAll(p.cfg, p.cb, msgs).acklist, sn)
    decreases |msgs|
  {
    if msgs == [] {
      assert p.(cb := p.cb) == p;
    } else {
      var t := p.(cb := Apply(p.cfg, p.cb, msgs[0]));
      ApplyAcked(p, q, msgs[0], sn);
      ApplyFlow(p, q, msgs[0]);
      ApplyAllAcked(t, q, msgs[1..], sn);
      if m :| m in msgs && m.cmd == CMD_PUSH && m.sn == sn {
        assert m == msgs[0] || m in msgs[1..];
      }
    }
  }

  lemma InputAcked(p: Peer, q: Peer, d: Bytes, sn: U32)
    requires Linked(p, q) && d in q.out && Reaches(p, q, sn) && |d| < HALF
    ensures Reaches(p.(cb := Input(p.cfg, p.cb, d).0), q, sn)
    ensures Acked(p.cb.acklist, sn) || SaysData(Msgs(p.cfg, d), sn) ==> Acked(Input(p.cfg, p.cb, d).0.acklist, sn)
  {
    var msgs := Msgs(p.cfg, d);
    assert msgs == Msgs(q.cfg, d);
    if |d| < OVERHEAD {
      ReadShort(p.cfg.conv, p.cfg.token, d);
      assert p.(cb := p.cb) == p;
    } else {
      ApplyAllAcked(p, q, msgs, sn);
      InputReceives(p.cfg, p.cb, d);
      SameReaches(p.(cb := ApplyAll(p.cfg, p.cb, msgs)), p.(cb := Input(p.cfg, p.cb, d).0), q, sn);
    }
  }

  lemma InputReceives(cfg: Config, cb: Cb, d: Bytes)
    requires cfg.Valid() && OVERHEAD <= |d| < HALF
    ensures var applied, r := ApplyAll(cfg, cb, Msgs(cfg, d)), Input(cfg, cb, d).0;
      r.rcv == applied.rcv && r.acklist == applied.acklist
  {
    InputEnd(cfg, cb, d);
  }

  lemma SameReaches(p: Peer, t: Peer, q: Peer, sn: U32)
    requires Reaches(p, q, sn) && t.cfg == p.cfg && t.cb.rcv == p.cb.rcv
    ensures Reaches(t, q, sn)
  {
  }

  lemma ReadShort(conv: U32, token: U32, d: Bytes)
    requires |d| < OVERHEAD
    ensures Read(conv, token, d).msgs == []
  {
  }

  lemma {:induction false} InputAllAcked(p: Peer, q: Peer, datagrams: seq<Bytes>, sn: U32)
    requires Linked(p, q) && (forall d :: d in datagrams ==> d in q.out && |d| < HALF) && Reaches(p, q, sn)
    ensures Acked(p.cb.acklist, sn) || SaysData(ReadAll(p.cfg.conv, p.cfg.token, datagrams), sn) ==>
      Acked(InputAll(p, datagrams).cb.acklist, sn)
    decreases |datagrams|
  {
    if datagrams != [] {
      var d := datagrams[0];
      InputAcked(p, q, d, sn);
      InputFlow(p, q, d);
      InputInv(p.cfg, p.cb, d);
      InputAllAcked(p.(cb := Input(p.cfg, p.cb, d).0), q, datagrams[1..], sn);
      if m :| m in ReadAll(p.cfg.conv, p.cfg.token, datagrams) && m.cmd == CMD_PUSH && m.sn == sn {
        assert m in Msgs(p.cfg, d) || m in ReadAll(p.cfg.conv, p.cfg.token, datagrams[1..]);
      }
    }
  }

  // The sending half: an acknowledged number leaves the send buffer and never comes back.

  predicate Gone(s: Sender, sn: U32) {
    forall x :: x in s.buf ==> x.sn != sn
  }

  lemma BufferedOutstanding(sndWnd: nat, s: Sender, x: OutSeg)
    requires SendInv(sndWnd, s) && x in s.buf
    ensures Outstanding(s, x.sn)
  {
    var j :| 0 <= j < |s.buf| && s.buf[j] == x;
    DiffInWindow(s.una, x.sn, s.una);
    DiffInWindow(s.una, x.sn, s.nxt);
  }

  lemma ApplyGone(cfg: Config, s: Sender, m: Msg, sn: U32)
    requires SenderInv(cfg, s)
    ensures Gone(s, sn) || (m.cmd == CMD_ACK && m.sn == sn) ==> Gone(ApplySnd(s, m), sn)
  {
    var acked := Shrink(ParseUna(s, m.una));
    ParseUnaInv(cfg, s, m.una);
    DropBeforeSuffix(s.buf, m.una);
    assert forall x :: x in acked.buf ==> x in s.buf;
    if m.cmd == CMD_ACK {
      var t := ParseAck(acked, m.sn);
      forall x | x in t.buf ensures x in acked.buf && x.sn != m.sn {
        WithoutMembers(acked.buf, m.sn, x);
        if x.sn == m.sn {
          BufferedOutstanding(cfg.sndWnd, acked, x);
        }
      }
    }
  }

  lemma {:induction false} ApplyAllGone(cfg: Config, cb: Cb, msgs: seq<Msg>, sn: U32)
    requires Inv(cfg, cb)
    ensures Gone(cb.snd, sn) || SaysAck(msgs, sn) ==> Gone(ApplyAll(cfg, cb, msgs).snd, sn)
    decreases |msgs|
  {
    if msgs != [] {
      ApplyGone(cfg, cb.snd, msgs[0], sn);
      ApplyInv(cfg, cb, msgs[0]);
      ApplyAllGone(cfg, Apply(cfg, cb, msgs[0]), msgs[1..], sn);
      if m :| m in msgs && m.cmd == CMD_ACK && m.sn == sn {
        assert m == msgs[0] || m in msgs[1..];
      }
    }
  }

  lemma InputGone(cfg: Config, cb: Cb, d: Bytes, sn: U32)
    requires Inv(cfg, cb) && |d| < HALF
    ensures Gone(cb.snd, sn) || SaysAck(Msgs(cfg, d), sn) ==> Gone(Input(cfg, cb, d).0.snd, sn)
  {
    if |d| < OVERHEAD {
      ReadShort(cfg.conv, cfg.token, d);
    } else {
      var applied := ApplyAll(cfg, cb, Msgs(cfg, d));
      assert Gone(cb.snd, sn) || SaysAck(Msgs(cfg, d), sn) ==> Gone(applied.snd, sn) by {
        ApplyAllGone(cfg, cb, Msgs(cfg, d), sn);
      }
      assert SameSegments(applied.snd.buf, Input(cfg, cb, d).0.snd.buf) by {
        InputEnd(cfg, cb, d);
      }
      SameGone(applied.snd, Input(cfg, cb, d).0.snd, sn);
    }
  }

  lemma SameGone(s: Sender, t: Sender, sn: U32)
    requires SameSegments(s.buf, t.buf)
    ensures Gone(s, sn) ==> Gone(t, sn)
  {
    if Gone(s, sn) {
      forall x | x in t.buf ensures x.sn != sn {
        var j :| 0 <= j < |t.buf| && t.buf[j] == x;
        assert s.buf[j] in s.buf;
      }
    }
  }

  lemma {:induction false} InputAllGone(p: Peer, datagrams: seq<Bytes>, sn: U32)
    requires Sound(p) && forall d :: d in datagrams ==> |d| < HALF
    ensures Gone(p.cb.snd, sn) || SaysAck(ReadAll(p.cfg.conv, p.cfg.token, datagrams), sn) ==>
      Gone(InputAll(p, datagrams).cb.snd, sn)
    decreases |datagrams|
  {
    if datagrams != [] {
      var d := datagrams[0];
      InputGone(p.cfg, p.cb, d, sn);
      InputInv(p.cfg, p.cb, d);
      InputAllGone(p.(cb := Input(p.cfg, p.cb, d).0), datagrams[1..], sn);
      if m :| m in ReadAll(p.cfg.conv, p.cfg.token, datagrams) && m.cmd == CMD_ACK && m.sn == sn {
        assert m in Msgs(p.cfg, d) || m in ReadAll(p.cfg.conv, p.cfg.token, datagrams[1..]);
      }
    }
  }

  // Both halves together

  // A flush of `p` sends its whole buffer: every segment is new or its timer has expired.
  predicate AllDue(p: Peer)
    requires p.cfg.Valid()
  {
    p.cb.clock.updated && forall x :: x in Prepared(p.cfg, p.cb).buf ==> Decide(p.cfg, p.cb.clock.current, x) != Keep
  }

  lemma FlushOutShort(p: Peer)
    requires Sound(p) && p.cb.clock.updated
    ensures forall d :: d in FlushOut(p.cfg, p.cb) ==> d in Flushed(p).out && |d| < HALF
    ensures ReadAll(p.cfg.conv, p.cfg.token, FlushOut(p.cfg, p.cb)) == FlushMsgs(p.cfg, p.cb)
  {
    FlushReadBack(p.cfg, p.cb);
    var ds := FlushOut(p.cfg, p.cb);
    forall d | d in ds ensures |d| < HALF {
      var i :| 0 <= i < |ds| && ds[i] == d;
      assert Deliverable(p.cfg.conv, p.cfg.token, p.cfg.mtu, ds[i]);
    }
  }

  // The peer after all datagrams of a flush of `p`.
  function Delivered(p: Peer, q: Peer): Peer
    requires Sound(p) && Sound(q)
  {
    InputAll(q, FlushOut(p.cfg, p.cb))
  }

  lemma DeliveredLinked(p: Peer, q: Peer)
    requires Linked(p, q) && p.cb.clock.updated
    ensures Linked(Flushed(p), Delivered(p, q)) && Delivered(p, q).cfg == q.cfg
  {
    FlushLinked(p, q);
    FlushOutShort(p);
    LinkedSymmetric(Flushed(p), q);
    InputAllLinked(q, Flushed(p), FlushOut(p.cfg, p.cb));
    LinkedSymmetric(Delivered(p, q), Flushed(p));
  }

  // After the flush has been delivered, every segment of the buffer has been acknowledged.
  lemma DeliveredAcked(p: Peer, q: Peer, x: OutSeg)
    requires Linked(p, q) && AllDue(p) && x in Flushed(p).cb.snd.buf
    requires Flushed(p).cb.snd.nxt <= q.cb.rcv.nxt + q.cfg.rcvWnd && q.cfg.rcvWnd + 0xFFFF <= HALF
    ensures Acked(Delivered(p, q).cb.acklist, x.sn)
  {
    var t := Flushed(p);
    FlushLinked(p, q);
    FlushOutShort(p);
    LinkedSymmetric(t, q);
    BufferRecent(t, q, x);
    var j :| 0 <= j < |t.cb.snd.buf| && t.cb.snd.buf[j] == x;
    FlushShape(p);
    var y := Prepared(p.cfg, p.cb).buf[j];
    assert y in Prepared(p.cfg, p.cb).buf && y.sn == x.sn;
    DataMsgsAll(p.cfg, p.cb.rcv, p.cb.clock.current, Prepared(p.cfg, p.cb).buf, y);
    var m := DataMsg(p.cfg.rcvWnd, p.cb.rcv, p.cb.clock.current, y);
    assert m in FlushMsgs(p.cfg, p.cb) && m.cmd == CMD_PUSH && m.sn == x.sn;
    InputAllAcked(q, t, FlushOut(p.cfg, p.cb), x.sn);
  }

  lemma BufferRecent(s: Peer, r: Peer, x: OutSeg)
    requires Linked(s, r) && x in s.cb.snd.buf
    ensures s.cb.snd.nxt - 0xFFFF <= x.sn < s.cb.snd.nxt
  {
    UnaBelowNxt(s, r);
    var j :| 0 <= j < |s.cb.snd.buf| && s.cb.snd.buf[j] == x;
    assert Off(s.cb.snd.una, x.sn) < InFlight(s.cb.snd);
  }

  // An acknowledgement queued at `q` and flushed back empties its place in the send buffer.
  lemma AckedGone(p: Peer, q: Peer, sn: U32)
    requires Sound(p) && Sound(q) && q.cb.clock.updated && Acked(q.cb.acklist, sn)
    requires p.cfg.conv == q.cfg.conv && p.cfg.token == q.cfg.token
    ensures Gone(Delivered(q, p).cb.snd, sn)
  {
    FlushOutShort(q);
    var a :| a in q.cb.acklist && a.sn == sn;
    var j :| 0 <= j < |q.cb.acklist| && q.cb.acklist[j] == a;
    var m := Control(q.cfg.rcvWnd, q.cb.rcv, CMD_ACK, a);
    assert AckMsgs(q.cfg.rcvWnd, q.cb.rcv, q.cb.acklist)[j] == m;
    assert m in FlushMsgs(q.cfg, q.cb);
    InputAllGone(p, FlushOut(q.cfg, q.cb), sn);
  }

  lemma {:induction false} InputAllKeepsClock(p: Peer, datagrams: seq<Bytes>)
    requires Sound(p)
    ensures InputAll(p, datagrams).cb.clock == p.cb.clock
    ensures Sound(InputAll(p, datagrams)) && InputAll(p, datagrams).cfg == p.cfg
    ensures InputAll(p, datagrams).cb.snd.nxt == p.cb.snd.nxt
    decreases |datagrams|
  {
    if datagrams != [] {
      InputInv(p.cfg, p.cb, datagrams[0]);
      ApplyAllKeepsClock(p.cfg, p.cb, Msgs(p.cfg, datagrams[0]));
      InputAllKeepsClock(p.(cb := Input(p.cfg, p.cb, datagrams[0]).0), datagrams[1..]);
    }
  }

  lemma {:induction false} ApplyAllKeepsClock(cfg: Config, cb: Cb, msgs: seq<Msg>)
    requires cfg.Valid()
    ensures ApplyAll(cfg, cb, msgs).clock == cb.clock
    decreases |msgs|
  {
    if msgs != [] {
      ApplyAllKeepsClock(cfg, Apply(cfg, cb, msgs[0]), msgs[1..]);
    }
  }

  // Progress: one flush with all timers expired, delivered in full, and the peer's flush delivered
  // in full, empty the send buffer, provided the peer's window reaches past every number in it.
  lemma NothingOutstanding(p: Peer)
    requires Sound(p) && p.cb.snd.buf == []
    ensures p.cb.snd.una == p.cb.snd.nxt
  {
  }

  lemma ExchangeEmpties(p: Peer, q: Peer)
    requires Linked(p, q) && AllDue(p) && q.cb.clock.updated
    requires Flushed(p).cb.snd.nxt <= q.cb.rcv.nxt + q.cfg.rcvWnd && q.cfg.rcvWnd + 0xFFFF <= HALF
    ensures Sound(Flushed(p)) && Sound(Delivered(p, q))
    ensures var s := Delivered(Delivered(p, q), Flushed(p)).cb.snd;
      s.buf == [] && s.una == s.nxt == Flushed(p).cb.snd.nxt
  {
    hide Inv, Flow, FlushState, FlushOut, FlushMsgs, InputAll, ReadAll;
    SoundConfig(p);
    SoundConfig(q);
    DeliveredLinked(p, q);
    InputAllKeepsClock(q, FlushOut(p.cfg, p.cb));
    var t, r := Flushed(p), Delivered(p, q);
    var end := Delivered(r, t);
    InputAllKeepsClock(t, FlushOut(r.cfg, r.cb));
    if end.cb.snd.buf != [] {
      var x := end.cb.snd.buf[0];
      assert !Gone(end.cb.snd, x.sn);
      FlushOutShort(r);
      InputAllGone(t, FlushOut(r.cfg, r.cb), x.sn);
      var y :| y in t.cb.snd.buf && y.sn == x.sn;
      DeliveredAcked(p, q, y);
      AckedGone(t, r, x.sn);
    }
    NothingOutstanding(end);
  }

  // In any run: while the peer's receive queue has room and the send window is no larger than its
  // receive window, one exchange gets everything through.
  lemma ExchangeInRun(ca: Config, cb: Config, steps: seq<Step>, n: Net)
    requires RunOf(ca, cb, steps, n)
    requires AllDue(n.a) && n.b.cb.clock.updated
    requires n.a.cfg.sndWnd <= n.b.cfg.rcvWnd && |n.b.cb.rcv.queue| < n.b.cfg.rcvWnd
    requires n.b.cfg.rcvWnd + 0xFFFF <= HALF
    ensures Sound(Flushed(n.a)) && Sound(Delivered(n.a, n.b))
    ensures var s := Delivered(Delivered(n.a, n.b), Flushed(n.a)).cb.snd;
      s.buf == [] && s.una == s.nxt == Flushed(n.a).cb.snd.nxt
  {
    Reachable(ca, cb, steps, n);
    FlushLinked(n.a, n.b);
    NotOvertaken(Flushed(n.a), n.b);
    UnaBelowNxt(Flushed(n.a), n.b);
    ExchangeEmpties(n.a, n.b);
  }
}
