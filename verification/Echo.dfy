/** Timestamps over whole runs: every acknowledgement returns the instant at which its segment was
    really sent, so that every round trip measured is one that took place. */
module Echo {
  import opened Serial
  import opened Wire
  import opened ControlBlock
  import opened Endpoint
  import opened Network

  // A serial number, and what the clock of its sender read when it was sent.
  type Sending = (U32, U32)

  // The endpoint as it flushes in this action, if it does.
  predicate Flushes(p: Peer, action: Action) {
    (action.DoFlush? && p.cb.clock.updated) || (action.DoUpdate? && FlushDue(Tick(p.cb.clock, action.now)))
  }

  function AtFlush(p: Peer, action: Action): (r: Peer)
    requires Sound(p)
    ensures Sound(r) && r.cfg == p.cfg
  {
    if action.DoUpdate? then p.(cb := Ticked(p.cfg, p.cb, action.now)) else p
  }

  // What the action sends, with the reading of the clock.
  function SendingsOf(p: Peer, action: Action): set<Sending>
    requires Sound(p)
  {
    if Flushes(p, action) then
      var at := AtFlush(p, action);
      set m | m in FlushMsgs(at.cfg, at.cb) && m.cmd == CMD_PUSH :: (m.sn, at.cb.clock.current)
    else {}
  }

  function Side(n: Net, atA: bool): Peer {
    if atA then n.a else n.b
  }

  // What one side sends in a run.
  function Sendings(n: Net, steps: seq<Step>, atA: bool): set<Sending>
    requires Sound(n.a) && Sound(n.b)
    decreases |steps|
  {
    if steps == [] then {}
    else
      (if steps[0].atA == atA then SendingsOf(Side(n, atA), steps[0].action) else {})
      + Sendings(Next(n, steps[0]), steps[1..], atA)
  }

  // Everything that `q` acknowledges, or is about to acknowledge, is among the sendings of `p`, and so
  // is everything that `p` has said.
  predicate Echoes(p: Peer, q: Peer, sent: set<Sending>) {
    && (forall a :: a in q.cb.acklist ==> (a.sn, a.ts) in sent)
    && (forall m :: m in Said(q.cfg, q.out) && m.cmd == CMD_ACK ==> (m.sn, m.ts) in sent)
    && (forall m :: m in Said(p.cfg, p.out) && m.cmd == CMD_PUSH ==> (m.sn, m.ts) in sent)
  }

  lemma Identifiers(p: Peer, q: Peer, d: Bytes)
    requires p.cfg.conv == q.cfg.conv && p.cfg.token == q.cfg.token
    ensures Msgs(p.cfg, d) == Msgs(q.cfg, d)
  {
  }

  // A flush says what it chose, besides what was said before.
  lemma {:induction false} SaidByFlush(p: Peer, m: Msg)
    requires Sound(p) && m in Said(p.cfg, Flushed(p).out) && m !in Said(p.cfg, p.out)
    ensures p.cb.clock.updated && m in FlushMsgs(p.cfg, p.cb)
  {
    hide FlushMsgs, Read, Inv;
    SoundConfig(p);
    if p.cb.clock.updated {
      FlushReadBack(p.cfg, p.cb);
      var d :| d in FlushOut(p.cfg, p.cb) && m in Msgs(p.cfg, d);
      ReadAllMember(p.cfg.conv, p.cfg.token, FlushOut(p.cfg, p.cb), d, m);
    } else {
      NothingOut(p);
    }
  }

  lemma NothingOut(p: Peer)
    requires Sound(p) && !p.cb.clock.updated
    ensures Flushed(p).out == p.out
  {
    assert FlushOut(p.cfg, p.cb) == [];
  }

  // The acknowledgements of a flush are those queued; its data carries the time.
  lemma {:induction false} FlushStamps(p: Peer, m: Msg)
    requires Sound(p) && m in FlushMsgs(p.cfg, p.cb)
    ensures m.cmd == CMD_ACK ==> exists a :: a in p.cb.acklist && a.sn == m.sn && a.ts == m.ts
    ensures m.cmd == CMD_PUSH ==> m.ts == p.cb.clock.current
  {
    hide DataMsgs, AckMsgs, ProbeMsgs, Prepared, ProbeTimer, Inv;
    SoundConfig(p);
    var cfg, cb, now := p.cfg, p.cb, p.cb.clock.current;
    var acks := AckMsgs(cfg.rcvWnd, cb.rcv, cb.acklist);
    var probe := ProbeTimer(cb.probe, cb.cong.rmtWnd, now);
    var probes := ProbeMsgs(cfg.rcvWnd, cb.rcv, probe, LastAck(cb.acklist));
    if m in acks {
      AckStamps(cfg.rcvWnd, cb.rcv, cb.acklist, m);
    } else if m in probes {
      ProbeMsgsMember(cfg.rcvWnd, cb.rcv, probe, LastAck(cb.acklist), m);
    } else {
      DataMsgsMember(cfg, cb.rcv, now, Prepared(cfg, cb).buf, m);
    }
  }

  lemma AckStamps(wnd: nat, r: Receiver, acks: seq<Ack>, m: Msg)
    requires m in AckMsgs(wnd, r, acks)
    ensures m.cmd == CMD_ACK && exists a :: a in acks && a.sn == m.sn && a.ts == m.ts
  {
    var i :| 0 <= i < |acks| && m == Control(wnd, r, CMD_ACK, acks[i]);
    assert acks[i] in acks;
  }

  lemma {:induction false} SenderFlushes(p: Peer, q: Peer, action: Action, sent: set<Sending>)
    requires Sound(p) && Echoes(p, q, sent) && Flushes(p, action)
    ensures Echoes(Flushed(AtFlush(p, action)), q, sent + SendingsOf(p, action))
  {
    hide FlushMsgs, FlushOut, FlushState, Said, Inv;
    var at := AtFlush(p, action);
    var r := Flushed(at);
    forall m | m in Said(r.cfg, r.out) && m.cmd == CMD_PUSH ensures (m.sn, m.ts) in sent + SendingsOf(p, action) {
      if m !in Said(p.cfg, p.out) {
        SaidByFlush(at, m);
        FlushStamps(at, m);
      }
    }
  }

  lemma {:induction false} ReceiverFlushes(p: Peer, q: Peer, sent: set<Sending>)
    requires Sound(q) && Echoes(p, q, sent)
    ensures Echoes(p, Flushed(q), sent)
  {
    hide FlushMsgs, FlushOut, Said, Inv;
    var r := Flushed(q);
    forall m | m in Said(r.cfg, r.out) && m.cmd == CMD_ACK ensures (m.sn, m.ts) in sent {
      if m !in Said(q.cfg, q.out) {
        SaidByFlush(q, m);
        FlushStamps(q, m);
      }
    }
    FlushedAcks(q);
  }

  lemma FlushedAcks(q: Peer)
    requires Sound(q)
    ensures Flushed(q).cb.acklist == if q.cb.clock.updated then [] else q.cb.acklist
  {
  }

  // What arrives is acknowledged under its own number with its own timestamp.
  lemma {:induction false} ApplyAllEchoes(cfg: Config, cb: Cb, msgs: seq<Msg>, sent: set<Sending>)
    requires cfg.Valid()
    requires forall a :: a in cb.acklist ==> (a.sn, a.ts) in sent
    requires forall m :: m in msgs && m.cmd == CMD_PUSH ==> (m.sn, m.ts) in sent
    ensures forall a :: a in ApplyAll(cfg, cb, msgs).acklist ==> (a.sn, a.ts) in sent
    decreases |msgs|
  {
    if msgs != [] {
      var next := Apply(cfg, cb, msgs[0]);
      forall a | a in next.acklist ensures (a.sn, a.ts) in sent {
        assert a in cb.acklist || a == Ack(msgs[0].sn, msgs[0].ts);
      }
      ApplyAllEchoes(cfg, next, msgs[1..], sent);
    }
  }

  lemma {:induction false} ReceiverReads(p: Peer, q: Peer, d: Bytes, sent: set<Sending>)
    requires Sound(q) && Echoes(p, q, sent) && d in p.out
    requires p.cfg.conv == q.cfg.conv && p.cfg.token == q.cfg.token
    ensures Echoes(p, q.(cb := Input(q.cfg, q.cb, d).0), sent)
  {
    hide Apply, ApplyAll, Read, SendInv, RecvInv, SizeInv;
    Identifiers(p, q, d);
    if Signed(Wrap(|d|)) >= OVERHEAD {
      ApplyAllEchoes(q.cfg, q.cb, Msgs(q.cfg, d), sent);
      InputEnd(q.cfg, q.cb, d);
    }
  }

  lemma Unflushed(p: Peer, q: Peer, action: Action)
    requires Sound(p) && !Flushes(p, action)
    ensures var r := Act(p, q, action);
      r.cfg == p.cfg && r.out == p.out && (!action.DoInput? ==> r.cb.acklist == p.cb.acklist)
  {
    if action.DoFlush? {
      NothingOut(p);
    }
  }

  lemma {:induction false} SenderActs(p: Peer, q: Peer, action: Action, sent: set<Sending>)
    requires Sound(p) && Echoes(p, q, sent)
    ensures Echoes(Act(p, q, action), q, sent + SendingsOf(p, action))
  {
    if Flushes(p, action) {
      SenderFlushes(p, q, action, sent);
    } else {
      Unflushed(p, q, action);
    }
  }

  lemma {:induction false} ReceiverActs(p: Peer, q: Peer, action: Action, sent: set<Sending>)
    requires Sound(q) && Echoes(p, q, sent) && p.cfg.conv == q.cfg.conv && p.cfg.token == q.cfg.token
    ensures Echoes(p, Act(q, p, action), sent)
  {
    hide FlushState, FlushOut, Said;
    if Flushes(q, action) {
      ReceiverFlushes(p, AtFlush(q, action), sent);
    } else {
      Unflushed(q, p, action);
      if action.DoInput? && action.datagram in p.out {
        ReceiverReads(p, q, action.datagram, sent);
      }
    }
  }

  lemma {:induction false} RunEchoes(n: Net, steps: seq<Step>, atA: bool, sent: set<Sending>)
    requires Sound(n.a) && Sound(n.b) && n.a.cfg.conv == n.b.cfg.conv && n.a.cfg.token == n.b.cfg.token
    requires Echoes(Side(n, atA), Side(n, !atA), sent)
    ensures var r := Run(n, steps); Echoes(Side(r, atA), Side(r, !atA), sent + Sendings(n, steps, atA))
    decreases |steps|
  {
    hide Sound, Act, Echoes, SendingsOf;
    if steps == [] {
      assert sent + {} == sent;
    } else {
      var s, next := steps[0], Next(n, steps[0]);
      var p, q := Side(n, atA), Side(n, !atA);
      var more := if s.atA == atA then SendingsOf(p, s.action) else {};
      if s.atA == atA {
        SenderActs(p, q, s.action, sent);
      } else {
        ReceiverActs(p, q, s.action, sent);
        assert sent + {} == sent;
      }
      RunEchoes(next, steps[1..], atA, sent + more);
      assert sent + more + Sendings(next, steps[1..], atA) == sent + Sendings(n, steps, atA);
    }
  }

  // In every run, however the network reorders, delays or repeats datagrams: an acknowledgement that
  // either side has said, or will say, carries the number of a segment that the other side sent and
  // the reading of that side's clock at one of its sendings.
  lemma {:induction false} EchoIsHonest(ca: Config, cb: Config, steps: seq<Step>, atA: bool)
    requires Connected(ca, cb)
    ensures var n := Run(Start(ca, cb), steps);
      var q, sent := Side(n, !atA), Sendings(Start(ca, cb), steps, atA);
      && (forall m :: m in Said(q.cfg, q.out) && m.cmd == CMD_ACK ==> (m.sn, m.ts) in sent)
      && (forall a :: a in q.cb.acklist ==> (a.sn, a.ts) in sent)
  {
    hide Said, Sound;
    StartSaysNothing(ca, cb);
    RunEchoes(Start(ca, cb), steps, atA, {});
    var sent := Sendings(Start(ca, cb), steps, atA);
    assert {} + sent == sent;
  }

  lemma StartSaysNothing(ca: Config, cb: Config)
    requires Connected(ca, cb)
    ensures var n := Start(ca, cb);
      Said(ca, n.a.out) == {} && Said(cb, n.b.out) == {} && n.a.cb.acklist == n.b.cb.acklist == []
  {
  }
}
