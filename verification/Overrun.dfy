/** A send window no larger than the peer's receive window does not keep data inside that window:
    a run in which a duplicated old datagram makes the sender overrun a peer whose receive queue
    is full. */
module Overrun {
  import opened Serial
  import opened Wire
  import opened ControlBlock
  import opened Endpoint
  import opened Network
  import opened Progress

  // Reachable states

  ghost predicate Reached(ca: Config, cb: Config, n: Net) {
    exists steps :: RunOf(ca, cb, steps, n)
  }

  lemma {:induction false} RunSnoc(n: Net, steps: seq<Step>, s: Step)
    requires Sound(n.a) && Sound(n.b)
    ensures Run(n, steps + [s]) == Next(Run(n, steps), s)
    decreases |steps|
  {
    if steps == [] {
      assert [] + [s] == [s] && [s][1..] == [];
      assert Run(n, [s]) == Run(Next(n, s), []);
    } else {
      assert (steps + [s])[0] == steps[0] && (steps + [s])[1..] == steps[1..] + [s];
      RunSnoc(Next(n, steps[0]), steps[1..], s);
    }
  }

  lemma {:induction false} ReachedNext(ca: Config, cb: Config, n: Net, s: Step)
    requires Reached(ca, cb, n) && Sound(n.a) && Sound(n.b) && FewBoth(Next(n, s))
    ensures Reached(ca, cb, Next(n, s))
  {
    hide Inv, Act, Few;
    var steps :| RunOf(ca, cb, steps, n);
    RunSnoc(Start(ca, cb), steps, s);
    assert RunOf(ca, cb, steps + [s], Next(n, s));
  }

  lemma ReachedLinked(ca: Config, cb: Config, n: Net)
    requires Reached(ca, cb, n)
    ensures Linked(n.a, n.b) && Sound(n.a) && Sound(n.b) && FewBoth(n)
  {
    var steps :| RunOf(ca, cb, steps, n);
    Reachable(ca, cb, steps, n);
  }

  // Handing over datagrams of the peer in order is a run.
  lemma {:induction false} ReachedToB(ca: Config, cb: Config, n: Net, ds: seq<Bytes>)
    requires Reached(ca, cb, n) && Sound(n.a) && Sound(n.b) && forall d :: d in ds ==> d in n.a.out
    ensures Reached(ca, cb, Net(n.a, InputAll(n.b, ds)))
    decreases |ds|
  {
    hide Inv, Flow, Input, Reached;
    if ds == [] {
      assert Net(n.a, n.b) == n;
    } else {
      var next := Next(n, Step(false, DoInput(ds[0])));
      ReachedLinked(ca, cb, n);
      ReachedNext(ca, cb, n, Step(false, DoInput(ds[0])));
      assert next.b == n.b.(cb := Input(n.b.cfg, n.b.cb, ds[0]).0);
      ReachedToB(ca, cb, next, ds[1..]);
    }
  }

  lemma {:induction false} ReachedToA(ca: Config, cb: Config, n: Net, ds: seq<Bytes>)
    requires Reached(ca, cb, n) && Sound(n.a) && Sound(n.b) && forall d :: d in ds ==> d in n.b.out
    ensures Reached(ca, cb, Net(InputAll(n.a, ds), n.b))
    decreases |ds|
  {
    hide Inv, Flow, Input, Reached;
    if ds == [] {
      assert Net(n.a, n.b) == n;
    } else {
      var next := Next(n, Step(true, DoInput(ds[0])));
      ReachedLinked(ca, cb, n);
      ReachedNext(ca, cb, n, Step(true, DoInput(ds[0])));
      assert next.a == n.a.(cb := Input(n.a.cfg, n.a.cb, ds[0]).0);
      ReachedToA(ca, cb, next, ds[1..]);
    }
  }

  // One exchange of flushes

  // Nothing in flight: every number before `nxt` is acknowledged, `left` fragments wait for one.
  predicate Idle(p: Peer, nxt: nat, left: nat) {
    p.cb.snd.buf == [] && p.cb.snd.una == p.cb.snd.nxt == nxt && |p.cb.snd.queue| == left && p.cb.clock.updated
  }

  // What receiving leaves alone.
  predicate SameBut(p: Peer, r: Peer) {
    && r.cfg == p.cfg && r.out == p.out && r.accepted == p.accepted && r.delivered == p.delivered
    && r.cb.clock == p.cb.clock && r.cb.snd.queue == p.cb.snd.queue && r.cb.snd.nxt == p.cb.snd.nxt
  }

  lemma {:induction false} InputAllSame(p: Peer, ds: seq<Bytes>)
    requires Sound(p)
    ensures SameBut(p, InputAll(p, ds)) && Sound(InputAll(p, ds))
    decreases |ds|
  {
    if ds != [] {
      InputInv(p.cfg, p.cb, ds[0]);
      ApplyAllKeepsClock(p.cfg, p.cb, Msgs(p.cfg, ds[0]));
      InputAllSame(p.(cb := Input(p.cfg, p.cb, ds[0]).0), ds[1..]);
    }
  }

  lemma ReachedFlush(ca: Config, cb: Config, n: Net)
    requires Reached(ca, cb, n) && Sound(n.a) && Sound(n.b)
    ensures Reached(ca, cb, Net(Flushed(n.a), n.b)) && Reached(ca, cb, Net(n.a, Flushed(n.b)))
  {
    hide Inv, Flow, Reached, FlushState, FlushOut;
    ReachedLinked(ca, cb, n);
    ReachedNext(ca, cb, n, Step(true, DoFlush));
    ReachedNext(ca, cb, n, Step(false, DoFlush));
  }

  lemma {:induction false} ReachedExchange(ca: Config, cb: Config, n: Net) returns (e: Net)
    requires Reached(ca, cb, n) && Linked(n.a, n.b) && AllDue(n.a) && n.b.cb.clock.updated
    requires Flushed(n.a).cb.snd.nxt <= n.b.cb.rcv.nxt + n.b.cfg.rcvWnd && n.b.cfg.rcvWnd + 0xFFFF <= HALF
    ensures Reached(ca, cb, e) && Linked(e.a, e.b)
    ensures Idle(e.a, Flushed(n.a).cb.snd.nxt, |Flushed(n.a).cb.snd.queue|)
    ensures e.a.cfg == n.a.cfg && e.b.cfg == n.b.cfg && e.b.cb.clock.updated
    ensures e.b.delivered == n.b.delivered && n.b.out <= e.b.out
  {
    var t, r := Flushed(n.a), Delivered(n.a, n.b);
    FlushInv(n.a.cfg, n.a.cb);
    InputAllSame(n.b, FlushOut(n.a.cfg, n.a.cb));
    FlushInv(r.cfg, r.cb);
    InputAllSame(t, FlushOut(r.cfg, r.cb));
    ExchangeEmpties(n.a, n.b);
    ReachedFlush(ca, cb, n);
    ReachedToB(ca, cb, Net(t, n.b), FlushOut(n.a.cfg, n.a.cb));
    ReachedFlush(ca, cb, Net(t, r));
    e := Net(Delivered(r, t), Flushed(r));
    ReachedToA(ca, cb, Net(t, Flushed(r)), FlushOut(r.cfg, r.cb));
    ReachedLinked(ca, cb, e);
  }

  // An idle sender with window `w` numbers `w` fragments, all of them due.
  lemma IdleFlush(p: Peer, nxt: nat, left: nat, w: nat)
    requires Sound(p) && Idle(p, nxt, left) && EffectiveWnd(p.cfg, p.cb.cong) == w <= left && nxt + w < HALF
    ensures AllDue(p) && Flushed(p).cb.snd.nxt == nxt + w && |Flushed(p).cb.snd.queue| == left - w
  {
    AdvanceSmall(nxt, w);
    var s := Prepared(p.cfg, p.cb);
    forall x | x in s.buf ensures Decide(p.cfg, p.cb.clock.current, x) == First {
      var i :| 0 <= i < |s.buf| && s.buf[i] == x;
      assert x == Admitted(p.cb.snd, i, p.cb.clock.current, p.cb.rtt.rto);
    }
  }

  // With nothing delivered to the user, the next expected number is the length of the queue; and
  // if the sender is idle, the queue is full or holds everything numbered.
  lemma QueueHolds(s: Peer, r: Peer, nxt: nat, left: nat)
    requires Linked(s, r) && Idle(s, nxt, left) && r.delivered == []
    ensures r.cb.rcv.nxt == |r.cb.rcv.queue| <= r.cfg.rcvWnd
    ensures r.cb.rcv.nxt >= Min(nxt, r.cfg.rcvWnd)
  {
    if |r.cb.rcv.queue| < r.cfg.rcvWnd {
      NotOvertaken(s, r);
    }
  }

  // An old datagram reopens the window

  // Every header of the datagram advertises the window `w`.
  predicate Offers(cfg: Config, d: Bytes, w: U16) {
    OVERHEAD <= |d| < HALF && Msgs(cfg, d) != [] && forall m :: m in Msgs(cfg, d) ==> m.wnd == w
  }

  lemma {:induction false} ApplyAllWnd(cfg: Config, cb: Cb, msgs: seq<Msg>, w: U16)
    requires cfg.Valid() && forall m :: m in msgs ==> m.wnd == w
    ensures ApplyAll(cfg, cb, msgs).cong == if msgs == [] then cb.cong else cb.cong.(rmtWnd := w)
    decreases |msgs|
  {
    if msgs != [] {
      ApplyAllWnd(cfg, Apply(cfg, cb, msgs[0]), msgs[1..], w);
    }
  }

  lemma InputOne(p: Peer, d: Bytes)
    requires Sound(p)
    ensures InputAll(p, [d]).cb == Input(p.cfg, p.cb, d).0
  {
    InputInv(p.cfg, p.cb, d);
    var one := p.(cb := Input(p.cfg, p.cb, d).0);
    assert [d][0] == d && [d][1..] == [];
    assert InputAll(p, [d]) == InputAll(one, []);
  }

  lemma {:induction false} InputIdle(cfg: Config, cb: Cb, d: Bytes, w: U16)
    requires Inv(cfg, cb) && cb.snd.buf == [] && Offers(cfg, d, w)
    ensures var t := Input(cfg, cb, d).0;
      t.snd.buf == [] && t.snd.una == t.snd.nxt && t.cong.rmtWnd == w
  {
    InputInv(cfg, cb, d);
    ApplyAllWnd(cfg, cb, Msgs(cfg, d), w);
  }

  lemma {:induction false} ReopenIdle(p: Peer, nxt: nat, left: nat, d: Bytes, w: U16)
    requires Sound(p) && Idle(p, nxt, left) && Offers(p.cfg, d, w)
    ensures var r := InputAll(p, [d]); Idle(r, nxt, left) && r.cb.cong.rmtWnd == w && r.cfg == p.cfg
  {
    InputAllSame(p, [d]);
    InputIdle(p.cfg, p.cb, d, w);
    InputOne(p, d);
  }

  lemma {:induction false} ReachedReopen(ca: Config, cb: Config, n: Net, nxt: nat, left: nat, d: Bytes, w: U16)
      returns (e: Net)
    requires Reached(ca, cb, n) && Sound(n.a) && Sound(n.b) && Idle(n.a, nxt, left)
    requires d in n.b.out && Offers(n.a.cfg, d, w)
    ensures Reached(ca, cb, e) && Idle(e.a, nxt, left) && e.a.cb.cong.rmtWnd == w && e.b == n.b && e.a.cfg == n.a.cfg
  {
    hide Reached, Flow, Inv;
    e := Net(InputAll(n.a, [d]), n.b);
    ReachedToA(ca, cb, n, [d]);
    ReopenIdle(n.a, nxt, left, d, w);
  }

  // The run

  // The smallest windows the setters allow, and segments of 22 bytes.
  const SMALL := Config(1, 2, 50, 128, 128, 1, 10, 0, 5, true, 20)

  // A message of 127 fragments.
  function Long(): Bytes {
    seq(2794, i => 0)
  }

  lemma LongCount()
    ensures SMALL.Valid() && SMALL.Mss() == 22 && FragCount(|Long()|, 22) == 127
  {
  }

  predicate Ready(n: Net, left: nat) {
    && n.a.cfg == SMALL && n.b.cfg == SMALL && Idle(n.a, 0, left) && n.a.cb.cong.rmtWnd == 128
    && n.b.cb.clock.updated && n.b.delivered == []
    && Total(n.a.accepted, 22) == left && (exists d :: d in n.b.out && Offers(SMALL, d, 128))
  }

  lemma {:induction false} SendsLong(p: Peer, q: Peer)
    requires Sound(p) && p.cfg == SMALL
    ensures var t := Act(p, q, DoSend(Long()));
      && t == p.(cb := t.cb, accepted := p.accepted + [Long()])
      && t.cb == p.cb.(snd := p.cb.snd.(queue := p.cb.snd.queue + Fragments(Long(), 22)))
      && |Fragments(Long(), 22)| == 127 && Total(t.accepted, 22) == Total(p.accepted, 22) + 127
  {
    hide Long, Inv;
    LongCount();
    assert (p.accepted + [Long()])[..|p.accepted|] == p.accepted;
  }

  lemma {:induction false} ReachedSend(n: Net, left: nat) returns (e: Net)
    requires Reached(SMALL, SMALL, n) && Ready(n, left) && left < 1000
    ensures Reached(SMALL, SMALL, e) && Ready(e, left + 127)
  {
    hide Inv, Flow, Reached, Offers, Act, Long, Total, Fragments;
    ReachedLinked(SMALL, SMALL, n);
    SendsLong(n.a, n.b);
    LongCount();
    var s := Step(true, DoSend(Long()));
    e := Next(n, s);
    ReachedNext(SMALL, SMALL, n, s);
  }

  // The only message of the peer: empty data, sent when its window was still empty.
  lemma {:induction false} FirstMessage(cb: Cb) returns (m: Msg)
    requires cb == Ticked(SMALL, Send(SMALL, INITIAL, []).0, 0)
    ensures FlushMsgs(SMALL, cb) == [m] && m.wnd == 128 && cb.clock.updated
  {
    var x := Admitted(cb.snd, 0, 0, cb.rtt.rto);
    assert cb.snd.queue == [Frag(0, [])];
    assert Prepared(SMALL, cb).buf == [x];
    m := DataMsg(128, cb.rcv, 0, x);
    assert [x][1..] == [];
    assert DataMsgs(SMALL, cb.rcv, 0, [x]) == [m];
  }

  lemma {:induction false} FirstWord(p: Peer) returns (d: Bytes)
    requires p == Peer(SMALL, Ticked(SMALL, Send(SMALL, INITIAL, []).0, 0), [[]], [], {}) && Sound(p)
    ensures d in Flushed(p).out && Offers(SMALL, d, 128)
  {
    hide Inv, FlushMsgs, FlushState, FlushOut, Send, Ticked, ReadAll, Read;
    SoundConfig(p);
    var m := FirstMessage(p.cb);
    FlushIsSaid(p, m);
    d :| d in Flushed(p).out && m in Msgs(p.cfg, d);
    FlushOutShort(p);
    forall k | k in Msgs(p.cfg, d) ensures k.wnd == 128 {
      ReadAllMember(p.cfg.conv, p.cfg.token, FlushOut(p.cfg, p.cb), d, k);
    }
    if |d| < OVERHEAD {
      ReadShort(p.cfg.conv, p.cfg.token, d);
    }
  }

  function Fresh(): Peer {
    Peer(SMALL, INITIAL, [], [], {})
  }

  lemma {:induction false} FirstSend(q: Peer)
    requires Sound(Fresh())
    ensures var t := Act(Fresh(), q, DoSend([]));
      t == Peer(SMALL, Send(SMALL, INITIAL, []).0, [[]], [], {}) && Few(t)
  {
    var t := Act(Fresh(), q, DoSend([]));
    assert t.accepted[..0] == [];
    assert FragCount(0, 22) == 1;
  }

  lemma {:induction false} UpdateFlushes(p: Peer, q: Peer)
    requires Sound(p) && p.cfg == SMALL && p.cb.clock == INITIAL.clock
    ensures var ticked := p.(cb := Ticked(SMALL, p.cb, 0));
      Sound(ticked) && ticked.cb.clock.updated && Act(p, q, DoUpdate(0)) == Flushed(ticked)
  {
  }

  // A flush with nothing to send leaves the send side as it is.
  lemma {:induction false} EmptyFlush(cfg: Config, cb: Cb)
    requires cfg.Valid() && cb.snd == INITIAL.snd && cb.clock.updated
    ensures var r := FlushState(cfg, cb);
      r.snd == INITIAL.snd && r.cong.rmtWnd == cb.cong.rmtWnd && r.clock == cb.clock
  {
    assert Prepared(cfg, cb) == INITIAL.snd;
  }

  // A fresh endpoint after its first update.
  lemma {:induction false} FirstUpdate(q: Peer)
    requires Sound(Fresh())
    ensures var t := Act(Fresh(), q, DoUpdate(0));
      Idle(t, 0, 0) && t.cb.cong.rmtWnd == 128 && t.accepted == [] && t.cfg == SMALL
  {
    UpdateFlushes(Fresh(), q);
    EmptyFlush(SMALL, Ticked(SMALL, INITIAL, 0));
  }

  lemma {:induction false} ReachedWord() returns (n: Net, d: Bytes)
    ensures Reached(SMALL, SMALL, n) && n.a == Fresh()
    ensures n.b.cfg == SMALL && n.b.cb.clock.updated && n.b.delivered == []
    ensures d in n.b.out && Offers(SMALL, d, 128)
  {
    LongCount();
    n := Start(SMALL, SMALL);
    assert RunOf(SMALL, SMALL, [], n);
    FirstSend(n.a);
    ReachedNext(SMALL, SMALL, n, Step(false, DoSend([])));
    n := Next(n, Step(false, DoSend([])));
    UpdateFlushes(n.b, n.a);
    d := FirstWord(n.b.(cb := Ticked(SMALL, n.b.cb, 0)));
    ReachedNext(SMALL, SMALL, n, Step(false, DoUpdate(0)));
    n := Next(n, Step(false, DoUpdate(0)));
  }

  lemma {:induction false} ReachedUpdated() returns (e: Net)
    ensures Reached(SMALL, SMALL, e) && Ready(e, 0)
  {
    var n, d := ReachedWord();
    ReachedLinked(SMALL, SMALL, n);
    FirstUpdate(n.b);
    var update := Step(true, DoUpdate(0));
    ReachedNext(SMALL, SMALL, n, update);
    e := Next(n, update);
    assert e.b == n.b;
  }

  lemma {:induction false} ReachedReady(k: nat) returns (e: Net)
    requires k <= 4
    ensures Reached(SMALL, SMALL, e) && Ready(e, 127 * k)
  {
    hide Ready, Reached;
    if k == 0 {
      e := ReachedUpdated();
    } else {
      e := ReachedReady(k - 1);
      e := ReachedSend(e, 127 * (k - 1));
    }
  }

  // With both windows at 128, the peer reading nothing, and an old datagram delivered twice more,
  // the sender numbers 384 fragments while the peer's window ends at 256.
  lemma {:induction false} DataRefused()
    ensures exists steps, n :: RunOf(SMALL, SMALL, steps, n) && SomeRefused(n.a, n.b)
  {
    hide Inv, Flow, RunOf, FlushState, FlushOut, Offers;
    var n := ReachedReady(4);
    ReachedLinked(SMALL, SMALL, n);
    var d :| d in n.b.out && Offers(SMALL, d, 128);
    IdleFlush(n.a, 0, 508, 128);
    n := ReachedExchange(SMALL, SMALL, n);
    QueueHolds(n.a, n.b, 128, 380);
    n := ReachedReopen(SMALL, SMALL, n, 128, 380, d, 128);
    ReachedLinked(SMALL, SMALL, n);
    IdleFlush(n.a, 128, 380, 128);
    n := ReachedExchange(SMALL, SMALL, n);
    QueueHolds(n.a, n.b, 256, 252);
    n := ReachedReopen(SMALL, SMALL, n, 256, 252, d, 128);
    ReachedLinked(SMALL, SMALL, n);
    IdleFlush(n.a, 256, 252, 128);
    ReachedFlush(SMALL, SMALL, n);
    var last := Net(Flushed(n.a), n.b);
    var steps :| RunOf(SMALL, SMALL, steps, last);
    RefusedIff(SMALL, SMALL, steps, last);
  }
}
