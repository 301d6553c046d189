/** Two endpoints joined by a network that may lose, duplicate, delay and reorder every datagram
    ever sent, and what holds in every run of them. */
module Network {
  import opened Serial
  import opened Wire
  import opened ControlBlock
  import opened Endpoint

  // An endpoint with its history: the messages `Send` accepted, the messages `Recv` returned,
  // and every datagram handed to the network.
  datatype Peer = Peer(cfg: Config, cb: Cb, accepted: seq<Bytes>, delivered: seq<Bytes>, out: set<Bytes>)

  datatype Net = Net(a: Peer, b: Peer)

  // One call of the interface at one endpoint. `DoInput` is the network at work: it hands over
  // any datagram the other side ever sent, any number of times, in any order, or never.
  datatype Action =
    | DoSend(msg: Bytes)
    | DoRecv(len: int)
    | DoFlush
    | DoUpdate(now: U32)
    | DoInput(datagram: Bytes)

  datatype Step = Step(atA: bool, action: Action)

  predicate Sound(p: Peer) {
    Inv(p.cfg, p.cb)
  }

  lemma SoundConfig(p: Peer)
    requires Sound(p)
    ensures p.cfg.Valid()
  {
  }

  function Flushed(p: Peer): Peer
    requires Sound(p)
  {
    p.(cb := FlushState(p.cfg, p.cb), out := p.out + set d | d in FlushOut(p.cfg, p.cb))
  }

  function Act(p: Peer, other: Peer, action: Action): (r: Peer)
    requires Sound(p)
    ensures r.cfg == p.cfg
  {
    match action
    case DoSend(m) =>
      var (cb, code) := Send(p.cfg, p.cb, m);
      p.(cb := cb, accepted := if code == 0 then p.accepted + [m] else p.accepted)
    case DoRecv(len) =>
      var r := Recv(p.cfg, p.cb, len);
      p.(cb := r.cb, delivered := if r.code >= 0 && len >= 0 then p.delivered + [r.data] else p.delivered)
    case DoFlush => Flushed(p)
    case DoUpdate(now) =>
      var ticked := p.(cb := Ticked(p.cfg, p.cb, now));
      if FlushDue(Tick(p.cb.clock, now)) then Flushed(ticked) else ticked
    case DoInput(d) =>
      if d in other.out then p.(cb := Input(p.cfg, p.cb, d).0) else p
  }

  lemma ActSound(p: Peer, other: Peer, action: Action)
    requires Sound(p)
    ensures Sound(Act(p, other, action))
  {
    match action
    case DoSend(m) => SendKeepsInv(p.cfg, p.cb, m);
    case DoRecv(len) => RecvKeepsInv(p.cfg, p.cb, len);
    case DoFlush => FlushInv(p.cfg, p.cb);
    case DoUpdate(now) => FlushInv(p.cfg, Ticked(p.cfg, p.cb, now));
    case DoInput(d) => InputInv(p.cfg, p.cb, d);
  }

  function Next(n: Net, s: Step): (r: Net)
    requires Sound(n.a) && Sound(n.b)
    ensures Sound(r.a) && Sound(r.b)
  {
    if s.atA then
      ActSound(n.a, n.b, s.action);
      Net(Act(n.a, n.b, s.action), n.b)
    else
      ActSound(n.b, n.a, s.action);
      Net(n.a, Act(n.b, n.a, s.action))
  }

  function Run(n: Net, steps: seq<Step>): (r: Net)
    requires Sound(n.a) && Sound(n.b)
    ensures Sound(r.a) && Sound(r.b)
    decreases |steps|
  {
    if steps == [] then n else Run(Next(n, steps[0]), steps[1..])
  }

  // Two fresh endpoints of one connection.
  predicate Connected(ca: Config, cb: Config) {
    ca.Valid() && cb.Valid() && ca.conv == cb.conv && ca.token == cb.token
  }

  function Start(ca: Config, cb: Config): (n: Net)
    requires Connected(ca, cb)
    ensures Sound(n.a) && Sound(n.b)
  {
    Net(Peer(ca, INITIAL, [], [], {}), Peer(cb, INITIAL, [], [], {}))
  }

  // The stream of fragments

  predicate Cuttable(ms: seq<Bytes>, mss: nat)
    requires mss > 0
  {
    forall i :: 0 <= i < |ms| ==> FragCount(|ms[i]|, mss) < WND_RCV
  }

  // All fragments of a sequence of messages, in order: fragment `i` travels as serial number `i`.
  function Stream(ms: seq<Bytes>, mss: nat): seq<Frag>
    requires mss > 0 && Cuttable(ms, mss)
  {
    if ms == [] then []
    else
      var front, last := ms[..|ms| - 1], ms[|ms| - 1];
      Stream(front, mss) + Fragments(last, mss)
  }

  lemma StreamAppend(ms: seq<Bytes>, m: Bytes, mss: nat)
    requires mss > 0 && Cuttable(ms, mss) && FragCount(|m|, mss) < WND_RCV
    ensures Cuttable(ms + [m], mss)
    ensures Stream(ms + [m], mss) == Stream(ms, mss) + Fragments(m, mss)
  {
    assert (ms + [m])[..|ms|] == ms;
  }

  lemma {:induction false} StreamPrefix(ms: seq<Bytes>, k: nat, mss: nat)
    requires mss > 0 && Cuttable(ms, mss) && k <= |ms|
    ensures Cuttable(ms[..k], mss) && Stream(ms[..k], mss) <= Stream(ms, mss)
  {
    if k == |ms| {
      assert ms[..k] == ms;
    } else {
      var front := ms[..|ms| - 1];
      StreamPrefix(front, k, mss);
      assert front[..k] == ms[..k];
    }
  }

  // The invariant of one direction

  // Serial number `i` has arrived: it is below the next expected one or waits in the buffer.
  predicate Got(r: Receiver, i: int) {
    0 <= i < r.nxt || exists x :: x in r.buf && x.sn == i
  }

  predicate Holds(s: Sender, i: int) {
    exists x :: x in s.buf && x.sn == i
  }

  // The sender numbers the stream without gaps: what has no number yet is queued, and every
  // segment in flight is the fragment of its number.
  predicate Numbered(f: seq<Frag>, s: Sender) {
    && s.nxt <= |f| < HALF
    && s.queue == f[s.nxt..]
    && (forall x :: x in s.buf ==> x.sn < s.nxt && x.frag == f[x.sn])
  }

  // A message on its way to the receiver carries the fragment of its number.
  predicate Faithful(f: seq<Frag>, nxt: nat, m: Msg) {
    m.cmd == CMD_PUSH ==> m.sn < nxt <= |f| && Frag(m.frg, m.data) == f[m.sn]
  }

  predicate Buffered(f: seq<Frag>, nxt: nat, r: Receiver) {
    && r.nxt <= nxt <= |f| < HALF
    && (forall x :: x in r.buf ==> r.nxt <= x.sn < nxt && x.frag == f[x.sn])
  }

  // The receive queue continues the stream after the `taken` fragments already delivered.
  predicate Queued(f: seq<Frag>, taken: nat, r: Receiver) {
    taken + |r.queue| == r.nxt <= |f| && FragsOf(r.queue) == f[taken..r.nxt]
  }

  // A message on its way back acknowledges only what has arrived.
  predicate Honest(r: Receiver, m: Msg) {
    m.una <= r.nxt && (m.cmd == CMD_ACK ==> Got(r, m.sn))
  }

  predicate HonestAcks(r: Receiver, acks: seq<Ack>) {
    forall a :: a in acks ==> Got(r, a.sn)
  }

  // No serial number is forgotten: the sender keeps it until it has arrived.
  predicate Remembered(s: Sender, r: Receiver) {
    forall i :: 0 <= i < s.nxt ==> Holds(s, i) || Got(r, i)
  }

  function Msgs(cfg: Config, d: Bytes): seq<Msg> {
    Read(cfg.conv, cfg.token, d).msgs
  }

  // Everything said in a set of datagrams.
  function Said(cfg: Config, out: set<Bytes>): set<Msg> {
    set d, m | d in out && m in Msgs(cfg, d) :: m
  }

  predicate AllFaithful(f: seq<Frag>, nxt: nat, said: set<Msg>) {
    forall m :: m in said ==> Faithful(f, nxt, m)
  }

  predicate AllHonest(r: Receiver, said: set<Msg>) {
    forall m :: m in said ==> Honest(r, m)
  }

  function StreamOf(p: Peer): seq<Frag>
    requires p.cfg.Valid() && Cuttable(p.accepted, p.cfg.Mss())
  {
    Stream(p.accepted, p.cfg.Mss())
  }

  predicate Cut(p: Peer) {
    p.cfg.Valid() && Cuttable(p.accepted, p.cfg.Mss())
  }

  // What has been delivered: whole messages, in order, a prefix of what was accepted.
  predicate DeliveredPrefix(accepted: seq<Bytes>, delivered: seq<Bytes>, mss: nat, r: Receiver)
    requires mss > 0 && Cuttable(accepted, mss)
  {
    && delivered <= accepted
    && Cuttable(delivered, mss)
    && Queued(Stream(accepted, mss), |Stream(delivered, mss)|, r)
  }

  // Everything that holds of the data flowing from `s` to `r`.
  predicate Flow(s: Peer, r: Peer) {
    && Cut(s)
    && Numbered(StreamOf(s), s.cb.snd)
    && AllFaithful(StreamOf(s), s.cb.snd.nxt, Said(s.cfg, s.out))
    && Buffered(StreamOf(s), s.cb.snd.nxt, r.cb.rcv)
    && DeliveredPrefix(s.accepted, r.delivered, s.cfg.Mss(), r.cb.rcv)
    && Remembered(s.cb.snd, r.cb.rcv)
    && HonestAcks(r.cb.rcv, r.cb.acklist)
    && AllHonest(r.cb.rcv, Said(r.cfg, r.out))
  }

  // Receiving a message

  lemma GotLater(r: Receiver, later: Receiver, i: int)
    requires Got(r, i) && r.nxt <= later.nxt
    requires forall x :: x in r.buf ==> x in later.buf || x.sn < later.nxt
    ensures Got(later, i)
  {
  }

  // The receiver's knowledge only grows.
  predicate Grows(r: Receiver, later: Receiver) {
    r.nxt <= later.nxt && forall x :: x in r.buf ==> x in later.buf || x.sn < later.nxt
  }

  lemma HonestLater(r: Receiver, later: Receiver, m: Msg)
    requires Grows(r, later) && Honest(r, m)
    ensures Honest(later, m)
  {
    if m.cmd == CMD_ACK {
      GotLater(r, later, m.sn);
    }
  }

  lemma MovedGrows(r: Receiver, k: nat)
    requires k <= |r.buf| && r.nxt + k < HALF
    requires forall i :: 0 <= i < k ==> r.buf[i].sn == Add(r.nxt, i)
    ensures Grows(r, Moved(r, k))
  {
    assert r.buf == r.buf[..k] + r.buf[k..];
  }

  // Promotion keeps the queue a stretch of the stream.
  lemma MovedQueued(f: seq<Frag>, nxt: nat, taken: nat, r: Receiver, k: nat)
    requires Buffered(f, nxt, r) && Queued(f, taken, r) && k <= |r.buf| && r.nxt + k <= nxt
    requires forall i :: 0 <= i < k ==> r.buf[i].sn == r.nxt + i
    ensures Queued(f, taken, Moved(r, k))
  {
    var q := Moved(r, k).queue;
    forall i | 0 <= i < |q| ensures FragsOf(q)[i] == f[taken..r.nxt + k][i] {
      if i < |r.queue| {
        assert FragsOf(r.queue)[i] == f[taken..r.nxt][i];
      } else {
        var j := i - |r.queue|;
        assert r.buf[j] in r.buf;
      }
    }
  }

  lemma ConsecutiveBelow(f: seq<Frag>, nxt: nat, r: Receiver, k: nat)
    requires Buffered(f, nxt, r) && k <= |r.buf| && k < HALF
    requires forall i :: 0 <= i < k ==> r.buf[i].sn == Add(r.nxt, i)
    ensures r.nxt + k <= nxt
    ensures forall i :: 0 <= i < k ==> r.buf[i].sn == r.nxt + i
  {
    if k > 0 {
      assert r.buf[k - 1] in r.buf;
    }
  }

  lemma BufferedMoved(f: seq<Frag>, nxt: nat, wnd: nat, r: Receiver, k: nat)
    requires Buffered(f, nxt, r) && InWindow(r.nxt, wnd, r.buf) && k <= |r.buf| && r.nxt + k <= nxt
    requires forall i :: 0 <= i < k ==> r.buf[i].sn == r.nxt + i
    ensures Buffered(f, nxt, Moved(r, k))
  {
    var m := Moved(r, k);
    forall x | x in m.buf ensures m.nxt <= x.sn < nxt && x.frag == f[x.sn] {
      var j :| 0 <= j < |m.buf| && m.buf[j] == x;
      assert r.buf[k + j] == x && x in r.buf;
      if k > 0 {
        assert Off(r.nxt, r.buf[k - 1].sn) < Off(r.nxt, r.buf[k + j].sn);
        assert r.buf[k - 1] in r.buf;
      }
    }
  }

  lemma PromoteFlow(f: seq<Frag>, nxt: nat, taken: nat, wnd: nat, r: Receiver)
    requires wnd < HALF && InWindow(r.nxt, wnd, r.buf) && |r.queue| <= wnd
    requires Buffered(f, nxt, r) && Queued(f, taken, r)
    ensures Buffered(f, nxt, Promote(wnd, r)) && Queued(f, taken, Promote(wnd, r)) && Grows(r, Promote(wnd, r))
  {
    PromoteShape(wnd, r);
    var k := Promotable(wnd, r);
    ConsecutiveBelow(f, nxt, r, k);
    BufferedMoved(f, nxt, wnd, r, k);
    MovedQueued(f, nxt, taken, r, k);
    MovedGrows(r, k);
  }

  lemma ParseDataFlow(f: seq<Frag>, nxt: nat, taken: nat, wnd: nat, r: Receiver, s: InSeg)
    requires wnd < HALF && RecvInv(wnd, r)
    requires Buffered(f, nxt, r) && Queued(f, taken, r)
    requires s.sn < nxt && s.frag == f[s.sn]
    ensures var p := ParseData(wnd, r, s);
      Buffered(f, nxt, p) && Queued(f, taken, p) && Grows(r, p)
      && (BeforeWindowEnd(wnd, r, s.sn) ==> Got(p, s.sn))
  {
    RecvWindowTest(wnd, r, s.sn);
    if BeforeWindowEnd(wnd, r, s.sn) && Diff(s.sn, r.nxt) >= 0 {
      var inserted := r.(buf := Insert(r.nxt, r.buf, s));
      InsertWindow(r.nxt, wnd, r.buf, s);
      assert Got(inserted, s.sn) by {
        if s.sn in Sns(r.buf) {
          var x :| x in r.buf && x.sn == s.sn;
          assert x in inserted.buf;
        } else {
          assert s in inserted.buf;
        }
      }
      PromoteFlow(f, nxt, taken, wnd, inserted);
      GotLater(inserted, Promote(wnd, inserted), s.sn);
    }
  }

  // A faithful message keeps the receive side a faithful image of the stream; an acknowledgement
  // is queued only for what has arrived.
  lemma ApplyRcvFlow(f: seq<Frag>, nxt: nat, taken: nat, wnd: nat, r: Receiver, acks: seq<Ack>, m: Msg)
    requires wnd < HALF && RecvInv(wnd, r)
    requires Buffered(f, nxt, r) && Queued(f, taken, r) && HonestAcks(r, acks)
    requires Faithful(f, nxt, m)
    ensures var p := ApplyRcv(wnd, r, m);
      Buffered(f, nxt, p) && Queued(f, taken, p) && Grows(r, p) && HonestAcks(p, ApplyAcks(wnd, r, acks, m))
  {
    var p := ApplyRcv(wnd, r, m);
    if m.cmd == CMD_PUSH && BeforeWindowEnd(wnd, r, m.sn) {
      ParseDataFlow(f, nxt, taken, wnd, r, Payload(m));
    }
    var all := ApplyAcks(wnd, r, acks, m);
    forall a | a in all ensures Got(p, a.sn) {
      if a in acks {
        GotLater(r, p, a.sn);
      }
    }
  }

  // Receiving an acknowledgement

  // Removing what has arrived forgets nothing.
  lemma RemoveArrived(f: seq<Frag>, s: Sender, t: Sender, r: Receiver)
    requires Numbered(f, s) && Remembered(s, r)
    requires t.nxt == s.nxt && t.queue == s.queue && forall x :: x in t.buf ==> x in s.buf
    requires forall x :: x in s.buf && x !in t.buf ==> Got(r, x.sn)
    ensures Numbered(f, t) && Remembered(t, r)
  {
    forall i | 0 <= i < t.nxt ensures Holds(t, i) || Got(r, i) {
      if Holds(s, i) && !Got(r, i) {
        var x :| x in s.buf && x.sn == i;
        assert x in t.buf;
      }
    }
  }

  lemma ParseUnaFlow(f: seq<Frag>, s: Sender, r: Receiver, una: U32)
    requires Numbered(f, s) && Remembered(s, r) && una <= r.nxt <= s.nxt
    ensures Numbered(f, Shrink(ParseUna(s, una))) && Remembered(Shrink(ParseUna(s, una)), r)
  {
    var t := Shrink(ParseUna(s, una));
    DropBeforeSuffix(s.buf, una);
    forall x | x in s.buf && x !in t.buf ensures Got(r, x.sn) {
      DropBeforeKeeps(s.buf, una, x);
    }
    RemoveArrived(f, s, t, r);
  }

  lemma ParseAckFlow(f: seq<Frag>, s: Sender, r: Receiver, sn: U32)
    requires Numbered(f, s) && Remembered(s, r) && Got(r, sn)
    ensures Numbered(f, Shrink(ParseAck(s, sn))) && Remembered(Shrink(ParseAck(s, sn)), r)
  {
    forall x ensures x in Without(s.buf, sn) <==> x in s.buf && x.sn != sn {
      WithoutMembers(s.buf, sn, x);
    }
    RemoveArrived(f, s, Shrink(ParseAck(s, sn)), r);
  }

  // An honest acknowledgement removes only what has arrived.
  lemma ApplySndFlow(f: seq<Frag>, s: Sender, r: Receiver, m: Msg)
    requires Numbered(f, s) && Remembered(s, r) && Honest(r, m) && r.nxt <= s.nxt
    ensures Numbered(f, ApplySnd(s, m)) && Remembered(ApplySnd(s, m), r)
  {
    ParseUnaFlow(f, s, r, m.una);
    if m.cmd == CMD_ACK {
      ParseAckFlow(f, Shrink(ParseUna(s, m.una)), r, m.sn);
    }
  }

  // Messages of a flush

  lemma {:induction false} ReadAllMember(conv: U32, token: U32, datagrams: seq<Bytes>, d: Bytes, m: Msg)
    requires d in datagrams && m in Read(conv, token, d).msgs
    ensures m in ReadAll(conv, token, datagrams)
  {
    if d != datagrams[0] {
      ReadAllMember(conv, token, datagrams[1..], d, m);
    }
  }

  lemma {:induction false} DataMsgsMember(cfg: Config, r: Receiver, now: U32, buf: seq<OutSeg>, m: Msg)
    requires cfg.Valid() && m in DataMsgs(cfg, r, now, buf)
    ensures exists x :: x in buf && m == DataMsg(cfg.rcvWnd, r, now, x)
  {
    if m !in DataMsgs(cfg, r, now, buf[1..]) {
      assert m == DataMsg(cfg.rcvWnd, r, now, buf[0]);
    } else {
      DataMsgsMember(cfg, r, now, buf[1..], m);
      var x :| x in buf[1..] && m == DataMsg(cfg.rcvWnd, r, now, x);
      assert x in buf;
    }
  }

  // What a flushed datagram can say: the receive side's acknowledgement, an acknowledgement that
  // was queued, or a segment in flight.
  predicate FlushedMsg(p: Peer, m: Msg)
    requires p.cfg.Valid()
  {
    && m.una == p.cb.rcv.nxt
    && (m.cmd == CMD_ACK ==> exists a :: a in p.cb.acklist && a.sn == m.sn)
    && (m.cmd == CMD_PUSH ==>
      exists x :: x in Prepared(p.cfg, p.cb).buf && x.sn == m.sn && x.frag == Frag(m.frg, m.data))
  }

  lemma FlushSays(p: Peer, m: Msg)
    requires Sound(p) && m in Said(p.cfg, set d | d in FlushOut(p.cfg, p.cb))
    ensures FlushedMsg(p, m)
  {
    if !p.cb.clock.updated {
      assert false;
    }
    var d :| d in FlushOut(p.cfg, p.cb) && m in Msgs(p.cfg, d);
    FlushReadBack(p.cfg, p.cb);
    ReadAllMember(p.cfg.conv, p.cfg.token, FlushOut(p.cfg, p.cb), d, m);
    FlushMsgsMember(p, m);
  }

  lemma AckMsgsMember(wnd: nat, r: Receiver, acks: seq<Ack>, m: Msg)
    requires m in AckMsgs(wnd, r, acks)
    ensures m.una == r.nxt && m.cmd == CMD_ACK && exists a :: a in acks && a.sn == m.sn
  {
    var i :| 0 <= i < |acks| && m == Control(wnd, r, CMD_ACK, acks[i]);
    assert acks[i] in acks;
  }

  lemma ProbeMsgsMember(wnd: nat, r: Receiver, p: Probe, a: Ack, m: Msg)
    requires m in ProbeMsgs(wnd, r, p, a)
    ensures m.una == r.nxt && m.cmd != CMD_ACK && m.cmd != CMD_PUSH
  {
  }

  lemma DataMember(p: Peer, m: Msg)
    requires Sound(p) && m in DataMsgs(p.cfg, p.cb.rcv, p.cb.clock.current, Prepared(p.cfg, p.cb).buf)
    ensures FlushedMsg(p, m)
  {
    var buf := Prepared(p.cfg, p.cb).buf;
    DataMsgsMember(p.cfg, p.cb.rcv, p.cb.clock.current, buf, m);
    PreparedInv(p.cfg, p.cb);
    var x :| x in buf && m == DataMsg(p.cfg.rcvWnd, p.cb.rcv, p.cb.clock.current, x);
    assert Sendable(p.cfg.Mss(), x.frag);
    assert x.sn == m.sn && x.frag == Frag(m.frg, m.data);
  }

  lemma InOneOfThree<T>(x: T, a: seq<T>, b: seq<T>, c: seq<T>)
    requires x in a + b + c
    ensures x in a || x in b || x in c
  {
  }

  lemma FlushMsgsMember(p: Peer, m: Msg)
    requires Sound(p) && m in FlushMsgs(p.cfg, p.cb)
    ensures FlushedMsg(p, m)
  {
    var cfg, cb, now := p.cfg, p.cb, p.cb.clock.current;
    var acks := AckMsgs(cfg.rcvWnd, cb.rcv, cb.acklist);
    var probe := ProbeTimer(cb.probe, cb.cong.rmtWnd, now);
    var probes := ProbeMsgs(cfg.rcvWnd, cb.rcv, probe, LastAck(cb.acklist));
    var data := DataMsgs(cfg, cb.rcv, now, Prepared(cfg, cb).buf);
    InOneOfThree(m, acks, probes, data);
    if m in data {
      DataMember(p, m);
    } else if m in acks {
      AckMsgsMember(cfg.rcvWnd, cb.rcv, cb.acklist, m);
    } else {
      ProbeMsgsMember(cfg.rcvWnd, cb.rcv, probe, LastAck(cb.acklist), m);
    }
  }

  // Every action keeps both directions: sending

  lemma FaithfulLonger(f: seq<Frag>, g: seq<Frag>, nxt: nat, m: Msg)
    requires Faithful(f, nxt, m) && f <= g
    ensures Faithful(g, nxt, m)
  {
  }

  // A longer stream keeps everything said about its front.
  lemma LongerStream(s: Peer, r: Peer, t: Peer)
    requires Flow(s, r) && Cut(t)
    requires t.cfg == s.cfg && t.out == s.out && t.cb.snd.nxt == s.cb.snd.nxt && t.cb.snd.buf == s.cb.snd.buf
    requires s.accepted <= t.accepted && StreamOf(s) <= StreamOf(t) && |StreamOf(t)| < HALF
    requires t.cb.snd.queue == StreamOf(t)[t.cb.snd.nxt..]
    ensures Flow(t, r)
  {
    var f, g := StreamOf(s), StreamOf(t);
    forall m | m in Said(t.cfg, t.out) ensures Faithful(g, t.cb.snd.nxt, m) {
      FaithfulLonger(f, g, t.cb.snd.nxt, m);
    }
    var taken := |Stream(r.delivered, s.cfg.Mss())|;
    assert g[taken..r.cb.rcv.nxt] == f[taken..r.cb.rcv.nxt];
    assert Queued(g, taken, r.cb.rcv);
  }

  lemma SendFlow(s: Peer, r: Peer, m: Bytes)
    requires Sound(s) && Flow(s, r)
    requires Cut(Act(s, r, DoSend(m))) ==> |StreamOf(Act(s, r, DoSend(m)))| < HALF
    ensures Flow(Act(s, r, DoSend(m)), r)
  {
    var mss := s.cfg.Mss();
    var t := Act(s, r, DoSend(m));
    if FragCount(|m|, mss) < WND_RCV {
      StreamAppend(s.accepted, m, mss);
      assert s.cb.snd.queue + Fragments(m, mss) == StreamOf(t)[s.cb.snd.nxt..];
      LongerStream(s, r, t);
    }
  }

  // Receiving

  lemma {:induction false} SpanOf(q: seq<InSeg>, fs: seq<Frag>)
    requires 0 < |fs| <= |q|
    requires forall i :: 0 <= i < |fs| ==> q[i].frag == fs[i] && fs[i].frg == |fs| - 1 - i
    ensures Span(q) == |fs|
  {
    if |fs| > 1 {
      SpanOf(q[1..], fs[1..]);
    }
  }

  lemma {:induction false} JoinFragments(m: Bytes, mss: nat)
    requires mss > 0 && FragCount(|m|, mss) < WND_RCV
    ensures Join(Fragments(m, mss)) == m
    decreases |m|
  {
    if |m| <= mss {
      assert m + Join([]) == m;
    } else {
      FragCountStep(|m|, mss);
      JoinFragments(m[mss..], mss);
      var rest := Fragments(m[mss..], mss);
      assert ([Frag(|rest|, m[..mss])] + rest)[1..] == rest;
      assert m[..mss] + m[mss..] == m;
    }
  }

  lemma StreamStep(ms: seq<Bytes>, k: nat, mss: nat)
    requires mss > 0 && Cuttable(ms, mss) && k < |ms|
    ensures Cuttable(ms[..k], mss) && Cuttable(ms[..k + 1], mss)
    ensures Stream(ms[..k + 1], mss) == Stream(ms[..k], mss) + Fragments(ms[k], mss)
  {
    assert ms[..k + 1][..k] == ms[..k];
  }

  // The stream continues, after the messages delivered, with the fragments of the next one.
  lemma NextMessageAt(ms: seq<Bytes>, k: nat, mss: nat)
    requires mss > 0 && Cuttable(ms, mss) && k < |ms|
    ensures Cuttable(ms[..k + 1], mss) && ms[..k + 1] == ms[..k] + [ms[k]]
    ensures Stream(ms[..k + 1], mss) == Stream(ms[..k], mss) + Fragments(ms[k], mss)
    ensures Stream(ms[..k + 1], mss) <= Stream(ms, mss)
  {
    StreamStep(ms, k, mss);
    StreamPrefix(ms, k + 1, mss);
  }

  lemma NextMessage(ms: seq<Bytes>, done: seq<Bytes>, mss: nat)
    requires mss > 0 && Cuttable(ms, mss) && done <= ms && Cuttable(done, mss)
    requires |Stream(done, mss)| < |Stream(ms, mss)|
    ensures |done| < |ms|
    ensures Cuttable(done + [ms[|done|]], mss)
    ensures Stream(done + [ms[|done|]], mss) == Stream(done, mss) + Fragments(ms[|done|], mss)
    ensures Stream(done + [ms[|done|]], mss) <= Stream(ms, mss)
  {
    var k := |done|;
    PrefixIsTake(ms, done);
    if k < |ms| {
      NextMessageAt(ms, k, mss);
    }
  }

  lemma TakeOneMore<T>(s: seq<T>, p: seq<T>)
    requires p <= s && |p| < |s|
    ensures s[..|p| + 1] == p + [s[|p|]]
  {
  }

  lemma PrefixIsTake<T>(s: seq<T>, p: seq<T>)
    requires p <= s
    ensures s[..|p|] == p
    ensures |p| == |s| ==> p == s
  {
  }

  // The head of the receive queue is the next message: `PeekSize` and `Span` see it whole or,
  // when fragments are missing, not at all.
  lemma HeadIsNextMessage(accepted: seq<Bytes>, delivered: seq<Bytes>, mss: nat, r: Receiver)
    requires mss > 0 && Cuttable(accepted, mss) && DeliveredPrefix(accepted, delivered, mss, r) && r.queue != []
    ensures |delivered| < |accepted|
    ensures var m := accepted[|delivered|];
      var n := FragCount(|m|, mss);
      && (|r.queue| < n ==> PeekSize(r.queue) == -1)
      && (|r.queue| >= n ==>
            Span(r.queue) == n && Join(FragsOf(r.queue[..n])) == m && PeekSize(r.queue) == |m|)
  {
    var q := r.queue;
    var done := Stream(delivered, mss);
    NextMessage(accepted, delivered, mss);
    var m := accepted[|delivered|];
    var fs := Fragments(m, mss);
    HeadFragments(Stream(accepted, mss), done, fs, r);
    FragmentsCountDown(m, mss);
    assert q[0].frag == fs[0];
    if |q| >= |fs| {
      SpanOf(q, fs);
      assert FragsOf(q[..|fs|]) == fs;
      JoinFragments(m, mss);
    }
  }

  lemma HeadFragments(f: seq<Frag>, done: seq<Frag>, fs: seq<Frag>, r: Receiver)
    requires Queued(f, |done|, r) && done + fs <= f
    ensures forall i :: 0 <= i < |fs| && i < |r.queue| ==> r.queue[i].frag == fs[i]
  {
    forall i | 0 <= i < |fs| && i < |r.queue| ensures r.queue[i].frag == fs[i] {
      assert FragsOf(r.queue)[i] == f[|done|..r.nxt][i];
      assert (done + fs)[|done| + i] == fs[i];
    }
  }

  lemma QueuedRest(f: seq<Frag>, taken: nat, n: nat, r: Receiver)
    requires Queued(f, taken, r) && n <= |r.queue|
    ensures Queued(f, taken + n, r.(queue := r.queue[n..]))
  {
    var q := r.queue[n..];
    forall i | 0 <= i < |q| ensures FragsOf(q)[i] == f[taken + n..r.nxt][i] {
      assert FragsOf(r.queue)[n + i] == f[taken..r.nxt][n + i];
    }
  }

  // Taking the next whole message delivers it and leaves the rest of the stream in place.
  lemma TakeFlow(accepted: seq<Bytes>, delivered: seq<Bytes>, mss: nat, r: Receiver)
    requires mss > 0 && Cuttable(accepted, mss) && DeliveredPrefix(accepted, delivered, mss, r)
    requires PeekSize(r.queue) >= 0
    ensures var q := r.queue;
      DeliveredPrefix(accepted, delivered + [Join(FragsOf(q[..Span(q)]))], mss, r.(queue := q[Span(q)..]))
  {
    HeadIsNextMessage(accepted, delivered, mss, r);
    var m := accepted[|delivered|];
    NextMessage(accepted, delivered, mss);
    QueuedRest(Stream(accepted, mss), |Stream(delivered, mss)|, Span(r.queue), r);
    TakeOneMore(accepted, delivered);
  }

  // What a change of the send side has to keep.
  lemma SenderFlow(s: Peer, r: Peer, t: Peer)
    requires Flow(s, r)
    requires t.cfg == s.cfg && t.accepted == s.accepted
    requires Numbered(StreamOf(s), t.cb.snd) && s.cb.snd.nxt <= t.cb.snd.nxt
    requires AllFaithful(StreamOf(s), t.cb.snd.nxt, Said(t.cfg, t.out)) && Remembered(t.cb.snd, r.cb.rcv)
    ensures Flow(t, r)
  {
  }

  // What a change of the receive side has to keep.
  lemma AcknowledgingFlow(s: Peer, r: Peer, t: Peer)
    requires Flow(s, r)
    requires t.cfg == r.cfg && t.out == r.out && HonestAcks(t.cb.rcv, t.cb.acklist)
    requires Buffered(StreamOf(s), s.cb.snd.nxt, t.cb.rcv) &&
      DeliveredPrefix(s.accepted, t.delivered, s.cfg.Mss(), t.cb.rcv) && Grows(r.cb.rcv, t.cb.rcv)
    ensures Flow(s, t)
  {
    RememberedLater(s.cb.snd, r.cb.rcv, t.cb.rcv);
    AllHonestLater(r.cb.rcv, t.cb.rcv, Said(r.cfg, r.out));
  }

  lemma ReceiverFlow(s: Peer, r: Peer, t: Peer)
    requires Flow(s, r)
    requires t.cfg == r.cfg && t.out == r.out && t.cb.acklist == r.cb.acklist
    requires Buffered(StreamOf(s), s.cb.snd.nxt, t.cb.rcv) &&
      DeliveredPrefix(s.accepted, t.delivered, s.cfg.Mss(), t.cb.rcv) && Grows(r.cb.rcv, t.cb.rcv)
    ensures Flow(s, t)
  {
    HonestAcksLater(r.cb.rcv, t.cb.rcv, r.cb.acklist);
    AcknowledgingFlow(s, r, t);
  }

  lemma RememberedLater(s: Sender, r: Receiver, later: Receiver)
    requires Remembered(s, r) && Grows(r, later)
    ensures Remembered(s, later)
  {
    forall i | 0 <= i < s.nxt ensures Holds(s, i) || Got(later, i) {
      if Got(r, i) {
        GotLater(r, later, i);
      }
    }
  }

  lemma HonestAcksLater(r: Receiver, later: Receiver, acks: seq<Ack>)
    requires HonestAcks(r, acks) && Grows(r, later)
    ensures HonestAcks(later, acks)
  {
    forall a | a in acks ensures Got(later, a.sn) {
      GotLater(r, later, a.sn);
    }
  }

  lemma AllHonestLater(r: Receiver, later: Receiver, said: set<Msg>)
    requires AllHonest(r, said) && Grows(r, later)
    ensures AllHonest(later, said)
  {
    forall m | m in said ensures Honest(later, m) {
      HonestLater(r, later, m);
    }
  }

  // The receive side after the head of the queue was taken (or only looked at) and the buffer
  // was promoted.
  function TakenSide(wnd: nat, r: Receiver, peek: bool): Receiver {
    Promote(wnd, if peek then r else r.(queue := r.queue[Span(r.queue)..]))
  }

  function TakenMessages(delivered: seq<Bytes>, r: Receiver, peek: bool): seq<Bytes> {
    if peek then delivered else delivered + [Join(FragsOf(r.queue[..Span(r.queue)]))]
  }

  lemma TakenFlow(accepted: seq<Bytes>, delivered: seq<Bytes>, mss: nat, nxt: nat, wnd: nat, r: Receiver, peek: bool)
    requires mss > 0 && Cuttable(accepted, mss) && DeliveredPrefix(accepted, delivered, mss, r)
    requires wnd < HALF && RecvInv(wnd, r) && Buffered(Stream(accepted, mss), nxt, r) && PeekSize(r.queue) >= 0
    ensures var t := TakenSide(wnd, r, peek);
      Buffered(Stream(accepted, mss), nxt, t) && Grows(r, t)
      && DeliveredPrefix(accepted, TakenMessages(delivered, r, peek), mss, t)
  {
    var taken := if peek then r else r.(queue := r.queue[Span(r.queue)..]);
    var done := TakenMessages(delivered, r, peek);
    if !peek {
      TakeFlow(accepted, delivered, mss, r);
    }
    PromoteFlow(Stream(accepted, mss), nxt, |Stream(done, mss)|, wnd, taken);
  }

  lemma RecvFlow(s: Peer, r: Peer, len: int)
    requires Sound(s) && Sound(r) && Flow(s, r)
    ensures Flow(s, Act(r, s, DoRecv(len)))
  {
    var t := Act(r, s, DoRecv(len));
    var q := r.cb.rcv.queue;
    var room := if len < 0 then -len else len;
    if q != [] && 0 <= PeekSize(q) <= room {
      TakenFlow(s.accepted, r.delivered, s.cfg.Mss(), s.cb.snd.nxt, r.cfg.rcvWnd, r.cb.rcv, len < 0);
      assert t.cb.rcv == TakenSide(r.cfg.rcvWnd, r.cb.rcv, len < 0);
      assert t.delivered == TakenMessages(r.delivered, r.cb.rcv, len < 0);
      ReceiverFlow(s, r, t);
    }
  }

  // Flushing

  lemma AdvanceSmall(x: U32, k: nat)
    requires x + k < MODULUS
    ensures Advance(x, k) == x + k
  {
    AdvanceOff(0, x, k);
  }

  lemma AdmitNumbered(f: seq<Frag>, s: Sender, w: nat, now: U32, rto: U32)
    requires Numbered(f, s)
    ensures Numbered(f, Admit(s, w, now, rto)) && s.nxt <= Admit(s, w, now, rto).nxt
  {
    var k := Room(s, w);
    var more := AdmittedAll(s, k, now, rto);
    forall x | x in more ensures x.sn < s.nxt + k && x.frag == f[x.sn] {
      var j :| 0 <= j < k && more[j] == x;
      AdvanceSmall(s.nxt, j);
      assert s.queue[j] == f[s.nxt + j];
    }
    AdvanceSmall(s.nxt, k);
    NumberedAppend(f, s, more, Admit(s, w, now, rto));
  }

  lemma NumberedAppend(f: seq<Frag>, s: Sender, more: seq<OutSeg>, t: Sender)
    requires Numbered(f, s) && |more| <= |s.queue|
    requires forall x :: x in more ==> x.sn < s.nxt + |more| && x.frag == f[x.sn]
    requires t.nxt == s.nxt + |more| && t.queue == s.queue[|more|..] && t.buf == s.buf + more
    ensures Numbered(f, t)
  {
    assert s.queue[|more|..] == f[s.nxt + |more|..];
  }

  // Everything that gets a number is held until it has arrived.
  lemma AdmitHolds(f: seq<Frag>, s: Sender, w: nat, now: U32, rto: U32, i: int)
    requires Numbered(f, s)
    requires Holds(s, i) || s.nxt <= i < Admit(s, w, now, rto).nxt
    ensures Holds(Admit(s, w, now, rto), i)
  {
    var t := Admit(s, w, now, rto);
    AdvanceSmall(s.nxt, Room(s, w));
    if Holds(s, i) {
      var x :| x in s.buf && x.sn == i;
      assert x in t.buf;
    } else {
      var j := i - s.nxt;
      AdvanceSmall(s.nxt, j);
      assert t.buf[|s.buf| + j] == Admitted(s, j, now, rto);
      assert t.buf[|s.buf| + j] in t.buf;
    }
  }

  // Retransmission bookkeeping changes neither numbers nor fragments.
  predicate SameSegments(a: seq<OutSeg>, b: seq<OutSeg>) {
    |a| == |b| && forall i :: 0 <= i < |a| ==> a[i].sn == b[i].sn && a[i].frag == b[i].frag
  }

  lemma SameSegmentsFlow(f: seq<Frag>, s: Sender, t: Sender)
    requires Numbered(f, s) && SameSegments(s.buf, t.buf) && t.nxt == s.nxt && t.queue == s.queue
    ensures Numbered(f, t)
    ensures forall i :: Holds(s, i) ==> Holds(t, i)
  {
    forall x | x in t.buf ensures x.sn < t.nxt && x.frag == f[x.sn] {
      var j :| 0 <= j < |t.buf| && t.buf[j] == x;
      assert s.buf[j] in s.buf;
    }
    forall i | Holds(s, i) ensures Holds(t, i) {
      var x :| x in s.buf && x.sn == i;
      var j :| 0 <= j < |s.buf| && s.buf[j] == x;
      assert t.buf[j] in t.buf;
    }
  }

  // A flush adds to what was said before only what it says itself.
  lemma SaidFlushed(p: Peer, m: Msg)
    requires Sound(p) && m in Said(p.cfg, Flushed(p).out) && m !in Said(p.cfg, p.out)
    ensures FlushedMsg(p, m)
  {
    FlushSays(p, m);
  }

  lemma FlushFaithful(s: Peer, f: seq<Frag>)
    requires Sound(s) && s.cb.clock.updated && AllFaithful(f, s.cb.snd.nxt, Said(s.cfg, s.out))
    requires Numbered(f, Prepared(s.cfg, s.cb)) && s.cb.snd.nxt <= Prepared(s.cfg, s.cb).nxt
    ensures AllFaithful(f, Prepared(s.cfg, s.cb).nxt, Said(s.cfg, Flushed(s).out))
  {
    forall m | m in Said(s.cfg, Flushed(s).out) ensures Faithful(f, Prepared(s.cfg, s.cb).nxt, m) {
      if m !in Said(s.cfg, s.out) {
        SaidFlushed(s, m);
        FlushedFaithful(s, f, m);
      }
    }
  }

  lemma FlushedFaithful(s: Peer, f: seq<Frag>, m: Msg)
    requires Sound(s) && Numbered(f, Prepared(s.cfg, s.cb)) && FlushedMsg(s, m)
    ensures Faithful(f, Prepared(s.cfg, s.cb).nxt, m)
  {
  }

  lemma FlushRemembered(f: seq<Frag>, s: Sender, w: nat, now: U32, rto: U32, t: Sender, r: Receiver)
    requires Numbered(f, s) && Remembered(s, r)
    requires SameSegments(Admit(s, w, now, rto).buf, t.buf) && t.nxt == Admit(s, w, now, rto).nxt
    requires t.queue == Admit(s, w, now, rto).queue
    ensures Numbered(f, t) && Remembered(t, r)
  {
    var p := Admit(s, w, now, rto);
    AdmitNumbered(f, s, w, now, rto);
    SameSegmentsFlow(f, p, t);
    forall i | 0 <= i < t.nxt ensures Holds(t, i) || Got(r, i) {
      if !Got(r, i) {
        AdmitHolds(f, s, w, now, rto, i);
      }
    }
  }

  // A flush admits fragments; otherwise the send side changes only in its bookkeeping.
  lemma FlushShape(s: Peer)
    requires Sound(s) && s.cb.clock.updated
    ensures var p, t := Prepared(s.cfg, s.cb), Flushed(s).cb.snd;
      SameSegments(p.buf, t.buf) && t.nxt == p.nxt && t.queue == p.queue
  {
  }

  lemma FlushSenderFlow(s: Peer, r: Peer)
    requires Sound(s) && Flow(s, r)
    ensures Flow(Flushed(s), r)
  {
    if s.cb.clock.updated {
      var f, now, rto := StreamOf(s), s.cb.clock.current, s.cb.rtt.rto;
      var w := EffectiveWnd(s.cfg, s.cb.cong);
      FlushShape(s);
      AdmitNumbered(f, s.cb.snd, w, now, rto);
      FlushFaithful(s, f);
      FlushRemembered(f, s.cb.snd, w, now, rto, Flushed(s).cb.snd, r.cb.rcv);
      SenderFlow(s, r, Flushed(s));
    } else {
      assert Flushed(s) == s;
    }
  }

  lemma FlushReceiverFlow(s: Peer, r: Peer)
    requires Sound(r) && Flow(s, r)
    ensures Flow(s, Flushed(r))
  {
    var t := Flushed(r);
    if r.cb.clock.updated {
      forall m | m in Said(t.cfg, t.out) ensures Honest(t.cb.rcv, m) {
        if m !in Said(r.cfg, r.out) {
          SaidFlushed(r, m);
        }
      }
    } else {
      assert t == r;
    }
  }

  // Delivering a datagram

  // Both directions between `p` and `q`, and the bound on the run.
  predicate Linked(p: Peer, q: Peer) {
    Sound(p) && Sound(q) && Flow(p, q) && Flow(q, p) && p.cfg.conv == q.cfg.conv && p.cfg.token == q.cfg.token
  }

  // A message that `q` may have sent to `p`.
  predicate FromPeer(q: Peer, m: Msg)
    requires Cut(q)
  {
    Honest(q.cb.rcv, m) && Faithful(StreamOf(q), q.cb.snd.nxt, m)
  }

  lemma ApplyFlow(p: Peer, q: Peer, m: Msg)
    requires Linked(p, q) && FromPeer(q, m)
    ensures Linked(p.(cb := Apply(p.cfg, p.cb, m)), q)
  {
    ApplyInv(p.cfg, p.cb, m);
    ApplySender(p, q, m);
    ApplyReceiver(q, p, m);
  }

  lemma ApplySender(s: Peer, r: Peer, m: Msg)
    requires Flow(s, r) && Honest(r.cb.rcv, m)
    ensures Flow(s.(cb := Apply(s.cfg, s.cb, m)), r)
  {
    ApplySndFlow(StreamOf(s), s.cb.snd, r.cb.rcv, m);
    SenderFlow(s, r, s.(cb := Apply(s.cfg, s.cb, m)));
  }

  lemma ApplyReceiver(s: Peer, r: Peer, m: Msg)
    requires Sound(r) && Flow(s, r) && Faithful(StreamOf(s), s.cb.snd.nxt, m)
    ensures Flow(s, r.(cb := Apply(r.cfg, r.cb, m)))
  {
    var t := r.(cb := Apply(r.cfg, r.cb, m));
    var done := |Stream(r.delivered, s.cfg.Mss())|;
    ApplyRcvFlow(StreamOf(s), s.cb.snd.nxt, done, r.cfg.rcvWnd, r.cb.rcv, r.cb.acklist, m);
    AcknowledgingFlow(s, r, t);
  }

  lemma {:induction false} ApplyAllFlow(p: Peer, q: Peer, msgs: seq<Msg>)
    requires Linked(p, q) && forall m :: m in msgs ==> FromPeer(q, m)
    ensures Linked(p.(cb := ApplyAll(p.cfg, p.cb, msgs)), q)
    decreases |msgs|
  {
    if msgs == [] {
      assert p.(cb := p.cb) == p;
    } else {
      ApplyFlow(p, q, msgs[0]);
      ApplyAllFlow(p.(cb := Apply(p.cfg, p.cb, msgs[0])), q, msgs[1..]);
    }
  }

  lemma InputFlow(p: Peer, q: Peer, d: Bytes)
    requires Linked(p, q) && d in q.out
    ensures Linked(p.(cb := Input(p.cfg, p.cb, d).0), q)
  {
    var msgs := Msgs(p.cfg, d);
    assert msgs == Msgs(q.cfg, d);
    var t := p.(cb := Input(p.cfg, p.cb, d).0);
    if Signed(Wrap(|d|)) < OVERHEAD {
      assert t == p;
    } else {
      ApplyAllFlow(p, q, msgs);
      InputInv(p.cfg, p.cb, d);
      InputEnd(p.cfg, p.cb, d);
      BookkeepingFlow(p.(cb := ApplyAll(p.cfg, p.cb, msgs)), q, t);
    }
  }

  // After the messages, an input only counts overtaken segments and opens the congestion window.
  lemma InputEnd(cfg: Config, cb: Cb, d: Bytes)
    requires cfg.Valid() && Signed(Wrap(|d|)) >= OVERHEAD
    ensures var applied, r := ApplyAll(cfg, cb, Read(cfg.conv, cfg.token, d).msgs), Input(cfg, cb, d).0;
      && SameSegments(applied.snd.buf, r.snd.buf) && r.snd.nxt == applied.snd.nxt && r.snd.queue == applied.snd.queue
      && r.rcv == applied.rcv && r.acklist == applied.acklist
  {
    hide ApplyAll, Read, Grow, NewestAck, Outstanding;
  }

  lemma BookkeepingFlow(p: Peer, q: Peer, t: Peer)
    requires Linked(p, q) && Sound(t) && t == p.(cb := t.cb)
    requires SameSegments(p.cb.snd.buf, t.cb.snd.buf) && t.cb.snd.nxt == p.cb.snd.nxt &&
      t.cb.snd.queue == p.cb.snd.queue
    requires t.cb.rcv == p.cb.rcv && t.cb.acklist == p.cb.acklist
    ensures Linked(t, q)
  {
    SameSegmentsFlow(StreamOf(p), p.cb.snd, t.cb.snd);
    assert Remembered(t.cb.snd, q.cb.rcv);
    SenderFlow(p, q, t);
    assert Flow(q, t);
  }

  // Whole runs

  // How many fragments a sequence of messages is cut into.
  function Total(ms: seq<Bytes>, mss: nat): nat
    requires mss > 0
  {
    if ms == [] then 0 else Total(ms[..|ms| - 1], mss) + FragCount(|ms[|ms| - 1]|, mss)
  }

  lemma {:induction false} StreamLength(ms: seq<Bytes>, mss: nat)
    requires mss > 0 && Cuttable(ms, mss)
    ensures |Stream(ms, mss)| == Total(ms, mss)
  {
    if ms != [] {
      StreamLength(ms[..|ms| - 1], mss);
    }
  }

  // Fewer than 2^31 fragments were ever accepted, so no serial number has wrapped.
  predicate Few(p: Peer) {
    p.cfg.Valid() && Total(p.accepted, p.cfg.Mss()) < HALF
  }

  lemma ActTotal(p: Peer, other: Peer, action: Action)
    requires Sound(p)
    ensures Total(p.accepted, p.cfg.Mss()) <= Total(Act(p, other, action).accepted, p.cfg.Mss())
  {
    if action.DoSend? {
      assert (p.accepted + [action.msg])[..|p.accepted|] == p.accepted;
    }
  }

  lemma SendLinked(p: Peer, q: Peer, m: Bytes)
    requires Linked(p, q) && Few(Act(p, q, DoSend(m)))
    ensures Linked(Act(p, q, DoSend(m)), q)
  {
    var t := Act(p, q, DoSend(m));
    if Cut(t) {
      StreamLength(t.accepted, t.cfg.Mss());
    }
    SendFlow(p, q, m);
    SendKeepsInv(p.cfg, p.cb, m);
  }

  lemma RecvLinked(p: Peer, q: Peer, len: int)
    requires Linked(p, q)
    ensures Linked(Act(p, q, DoRecv(len)), q)
  {
    RecvFlow(q, p, len);
    RecvKeepsInv(p.cfg, p.cb, len);
    SenderFlow(p, q, Act(p, q, DoRecv(len)));
  }

  lemma FlushLinked(p: Peer, q: Peer)
    requires Linked(p, q)
    ensures Linked(Flushed(p), q)
  {
    FlushSenderFlow(p, q);
    FlushReceiverFlow(q, p);
    FlushInv(p.cfg, p.cb);
  }

  lemma TickLinked(p: Peer, q: Peer, now: U32)
    requires Linked(p, q)
    ensures Linked(p.(cb := Ticked(p.cfg, p.cb, now)), q)
  {
    var t := p.(cb := Ticked(p.cfg, p.cb, now));
    SenderFlow(p, q, t);
    assert Flow(q, t);
  }

  lemma ActLinked(p: Peer, q: Peer, action: Action)
    requires Linked(p, q) && Few(Act(p, q, action))
    ensures Linked(Act(p, q, action), q)
  {
    match action
    case DoSend(m) => SendLinked(p, q, m);
    case DoRecv(len) => RecvLinked(p, q, len);
    case DoFlush => FlushLinked(p, q);
    case DoUpdate(now) =>
      TickLinked(p, q, now);
      FlushLinked(p.(cb := Ticked(p.cfg, p.cb, now)), q);
    case DoInput(d) =>
      if d in q.out {
        InputFlow(p, q, d);
      }
  }

  lemma LinkedSymmetric(p: Peer, q: Peer)
    requires Linked(p, q)
    ensures Linked(q, p)
  {
  }

  lemma NextLinked(n: Net, s: Step)
    requires Linked(n.a, n.b) && Few(Next(n, s).a) && Few(Next(n, s).b)
    ensures Linked(Next(n, s).a, Next(n, s).b)
  {
    if s.atA {
      ActLinked(n.a, n.b, s.action);
    } else {
      LinkedSymmetric(n.a, n.b);
      ActLinked(n.b, n.a, s.action);
      LinkedSymmetric(Next(n, s).b, n.a);
    }
  }

  predicate FewBoth(n: Net) {
    Few(n.a) && Few(n.b)
  }

  lemma {:induction false} FewBefore(n: Net, steps: seq<Step>)
    requires Sound(n.a) && Sound(n.b) && FewBoth(Run(n, steps))
    ensures FewBoth(n)
    decreases |steps|
  {
    if steps != [] {
      FewBefore(Next(n, steps[0]), steps[1..]);
      if steps[0].atA {
        ActTotal(n.a, n.b, steps[0].action);
      } else {
        ActTotal(n.b, n.a, steps[0].action);
      }
    }
  }

  lemma {:induction false} RunLinked(n: Net, steps: seq<Step>)
    requires Linked(n.a, n.b) && FewBoth(Run(n, steps))
    ensures Linked(Run(n, steps).a, Run(n, steps).b)
    decreases |steps|
  {
    if steps != [] {
      FewBefore(Next(n, steps[0]), steps[1..]);
      NextLinked(n, steps[0]);
      RunLinked(Next(n, steps[0]), steps[1..]);
    }
  }

  lemma StartLinked(ca: Config, cb: Config)
    requires Connected(ca, cb)
    ensures Linked(Start(ca, cb).a, Start(ca, cb).b)
  {
  }

  // A run of two connected endpoints in which fewer than 2^31 fragments are accepted each way.
  predicate RunOf(ca: Config, cb: Config, steps: seq<Step>, n: Net) {
    Connected(ca, cb) && n == Run(Start(ca, cb), steps) && FewBoth(n)
  }

  lemma Reachable(ca: Config, cb: Config, steps: seq<Step>, n: Net)
    requires RunOf(ca, cb, steps, n)
    ensures Linked(n.a, n.b)
  {
    StartLinked(ca, cb);
    RunLinked(Start(ca, cb), steps);
  }

  // End-to-end safety: in every run, whatever the network loses, duplicates, delays or reorders,
  // the messages each side has received are a prefix of the messages the other side's `Send`
  // accepted: whole, once, and in order.
  lemma EndToEnd(ca: Config, cb: Config, steps: seq<Step>, n: Net)
    requires RunOf(ca, cb, steps, n)
    ensures n.b.delivered <= n.a.accepted && n.a.delivered <= n.b.accepted
  {
    Reachable(ca, cb, steps, n);
  }

  // No data is forgotten: every serial number assigned is still in the send buffer or has arrived
  // at the peer; every acknowledgement, queued or on the wire, names a number that has arrived.
  lemma NothingForgotten(ca: Config, cb: Config, steps: seq<Step>, n: Net)
    requires RunOf(ca, cb, steps, n)
    ensures forall i :: 0 <= i < n.a.cb.snd.nxt ==> Holds(n.a.cb.snd, i) || Got(n.b.cb.rcv, i)
    ensures forall ack :: ack in n.b.cb.acklist ==> Got(n.b.cb.rcv, ack.sn)
    ensures forall m :: m in Said(n.b.cfg, n.b.out) ==>
              m.una <= n.b.cb.rcv.nxt && (m.cmd == CMD_ACK ==> Got(n.b.cb.rcv, m.sn))
  {
    Reachable(ca, cb, steps, n);
    var r, said := n.b.cb.rcv, Said(n.b.cfg, n.b.out);
    forall m | m in said ensures Honest(r, m) {}
  }

  // Conservation: every fragment ever accepted has a serial number or waits in the send queue,
  // and no more than the send window allows are in flight.
  lemma Conservation(ca: Config, cb: Config, steps: seq<Step>, n: Net)
    requires RunOf(ca, cb, steps, n)
    ensures var s := n.a.cb.snd;
      Total(n.a.accepted, n.a.cfg.Mss()) == s.nxt + |s.queue| && |s.buf| <= InFlight(s) <= n.a.cfg.sndWnd
  {
    Reachable(ca, cb, steps, n);
    StreamLength(n.a.accepted, n.a.cfg.Mss());
    OutWindowSize(n.a.cb.snd.una, InFlight(n.a.cb.snd), n.a.cb.snd.buf);
  }

  // No receive-side deadlock: whenever the receive queue is full, its head is a complete message,
  // because a message has at most 127 fragments and the window at least 128 places.
  lemma NoReceiveDeadlock(ca: Config, cb: Config, steps: seq<Step>, n: Net)
    requires RunOf(ca, cb, steps, n) && |n.b.cb.rcv.queue| >= n.b.cfg.rcvWnd
    ensures PeekSize(n.b.cb.rcv.queue) >= 0
    ensures |n.b.delivered| < |n.a.accepted|
    ensures forall len :: len >= PeekSize(n.b.cb.rcv.queue) ==>
              Recv(n.b.cfg, n.b.cb, len).code == |n.a.accepted[|n.b.delivered|]|
              && Recv(n.b.cfg, n.b.cb, len).data == n.a.accepted[|n.b.delivered|]
  {
    Reachable(ca, cb, steps, n);
    HeadIsNextMessage(n.a.accepted, n.b.delivered, n.a.cfg.Mss(), n.b.cb.rcv);
  }
}
