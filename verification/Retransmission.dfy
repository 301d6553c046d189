/** The life of a segment against an ideal one, kept in unbounded numbers: when it is sent again and
    why, in every mode. */
module Retransmission {
  import opened Arithmetic
  import opened Serial
  import opened Wire
  import opened ControlBlock
  import opened Endpoint
  import opened Life
  import opened Timers

  // What a flush says of segments

  // Some message carries the data numbered `sn`.
  predicate SaysNumber(msgs: seq<Msg>, sn: U32) {
    exists m :: m in msgs && m.cmd == CMD_PUSH && m.sn == sn
  }

  lemma {:induction false} DataSource(cfg: Config, r: Receiver, now: U32, buf: seq<OutSeg>, m: Msg)
    requires cfg.Valid() && m in DataMsgs(cfg, r, now, buf)
    ensures exists x :: x in buf && Decide(cfg, now, x) != Keep && m == DataMsg(cfg.rcvWnd, r, now, x)
    decreases |buf|
  {
    if m in DataMsgs(cfg, r, now, buf[1..]) {
      DataSource(cfg, r, now, buf[1..], m);
      var x :| x in buf[1..] && Decide(cfg, now, x) != Keep && m == DataMsg(cfg.rcvWnd, r, now, x);
      assert x in buf;
    } else {
      assert buf[0] in buf;
    }
  }

  lemma {:induction false} DataOf(cfg: Config, r: Receiver, now: U32, buf: seq<OutSeg>, x: OutSeg)
    requires cfg.Valid() && x in buf && Decide(cfg, now, x) != Keep
    ensures DataMsg(cfg.rcvWnd, r, now, x) in DataMsgs(cfg, r, now, buf)
    decreases |buf|
  {
    if x != buf[0] {
      DataOf(cfg, r, now, buf[1..], x);
    }
  }

  // The only data in a flush is that of its data segments.
  lemma {:induction false} PushIsData(cfg: Config, cb: Cb, m: Msg)
    requires cfg.Valid() && m.cmd == CMD_PUSH
    ensures m in FlushMsgs(cfg, cb) <==> m in DataMsgs(cfg, cb.rcv, cb.clock.current, Prepared(cfg, cb).buf)
  {
    hide DataMsgs, Prepared, ProbeTimer;
    var acks := AckMsgs(cfg.rcvWnd, cb.rcv, cb.acklist);
    var probe := ProbeTimer(cb.probe, cb.cong.rmtWnd, cb.clock.current);
    var probes := ProbeMsgs(cfg.rcvWnd, cb.rcv, probe, LastAck(cb.acklist));
    assert m !in acks && m !in probes;
  }

  // A flush says the data of a segment if and only if there is a reason to.
  lemma {:induction false} SaysIff(cfg: Config, cb: Cb, x: OutSeg)
    requires Inv(cfg, cb) && x in Prepared(cfg, cb).buf
    ensures SaysNumber(FlushMsgs(cfg, cb), x.sn) <==> Decide(cfg, cb.clock.current, x) != Keep
  {
    hide Decide, FlushMsgs, DataMsgs;
    var p, now := Prepared(cfg, cb), cb.clock.current;
    PreparedInv(cfg, cb);
    if Decide(cfg, now, x) != Keep {
      DataOf(cfg, cb.rcv, now, p.buf, x);
      PushIsData(cfg, cb, DataMsg(cfg.rcvWnd, cb.rcv, now, x));
    }
    if m :| m in FlushMsgs(cfg, cb) && m.cmd == CMD_PUSH && m.sn == x.sn {
      PushIsData(cfg, cb, m);
      DataSource(cfg, cb.rcv, now, p.buf, m);
      var y :| y in p.buf && Decide(cfg, now, y) != Keep && m == DataMsg(cfg.rcvWnd, cb.rcv, now, y);
      SameNumber(p.una, InFlight(p), p.buf, x, y);
    }
  }

  // A call sends a segment of the send buffer if and only if it has a reason to.
  lemma {:induction false} SentIff(cfg: Config, cb: Cb, c: Call, x: OutSeg)
    requires Inv(cfg, cb) && x in cb.snd.buf
    ensures SaysNumber(Spoken(cfg, cb, c), x.sn) <==> Why(cfg, cb, c, x) != Keep
  {
    SpokenIs(cfg, cb, c);
    if FlushesNow(cb, c) {
      var at := AtFlush(cfg, cb, c);
      assert x in Prepared(cfg, at).buf;
      SaysIff(cfg, at, x);
    }
  }

  // The ideal life

  // The timeout value, when it runs out, how often the segment has been sent, and how many datagrams
  // have overtaken it since its last fast retransmission.
  datatype Stage = Stage(rto: nat, due: nat, sends: nat, skips: nat)

  // The timeout value after a timeout: without nodelay it at least doubles, with nodelay 1 it grows
  // by half of itself, with any other by half of the estimate in force.
  function Longer(nodelay: nat, estimate: nat, rto: nat): (r: nat)
    ensures r >= rto
  {
    if nodelay == 0 then rto + Max(rto, estimate)
    else if nodelay == 1 then rto + rto / 2
    else rto + estimate / 2
  }

  // Why a flush at the instant `now` sends the segment.
  function Expected(cfg: Config, s: Stage, now: nat): (why: Reason)
    ensures !why.First?
  {
    if now >= s.due then Timeout
    else if cfg.fastresend > 0 && s.skips >= cfg.fastresend && (cfg.fastlimit <= 0 || s.sends <= cfg.fastlimit)
    then Fast
    else Keep
  }

  function Resent(cfg: Config, estimate: nat, now: nat, s: Stage): Stage {
    match Expected(cfg, s, now)
    case Timeout =>
      var r := Longer(cfg.nodelay, estimate, s.rto);
      Stage(r, now + r, s.sends + 1, s.skips)
    case Fast => Stage(s.rto, now + s.rto, s.sends + 1, 0)
    case _ => s
  }

  // One call at the instant `now`.
  function Later(cfg: Config, cb: Cb, c: Call, x: OutSeg, now: nat, s: Stage): Stage
    requires cfg.Valid()
  {
    if Overtakes(cfg, cb, c, x) then s.(skips := s.skips + 1)
    else if FlushesNow(cb, c) then Resent(cfg, cb.rtt.rto, now, s)
    else s
  }

  // The fields of the segment are those of the ideal life, in 32 bits.
  predicate Matches(x: OutSeg, s: Stage) {
    x.rto == s.rto && x.resendts == Wrap(s.due) && x.xmit == s.sends >= 1 && x.fastack == s.skips
  }

  // The counters and times of the ideal life are such that 32 bits can compare them at `now`.
  predicate InRange(s: Stage, now: nat) {
    && s.rto < HALF && s.sends < HALF - 1 && s.skips < 0xFFFF_FFFF
    && now < s.due + HALF && s.due < now + HALF
  }

  // From here on, as long as 32 bits suffice, each call sends the segment exactly when the ideal life
  // does, for the same reason, and says so in its datagrams.
  predicate Lives(cfg: Config, cb: Cb, calls: seq<Call>, x: OutSeg, ts: seq<nat>, s: Stage)
    requires cfg.Valid() && |ts| == |calls|
    decreases |calls|
  {
    Matches(x, s) &&
    (calls != [] && InRange(s, ts[0]) ==>
       var c := calls[0];
       var why := if FlushesNow(cb, c) then Expected(cfg, s, ts[0]) else Keep;
       && Why(cfg, cb, c, x) == why
       && (x in cb.snd.buf ==> (SaysNumber(Spoken(cfg, cb, c), x.sn) <==> why != Keep))
       && Lives(cfg, Perform(cfg, cb, c), calls[1..], Aged(cfg, cb, c, x), ts[1..], Later(cfg, cb, c, x, ts[0], s)))
  }

  // The comparison of wrapped times is that of the times, when they are less than 2^31 apart.
  lemma DiffIsOrder(now: nat, due: nat)
    requires now < due + HALF && due < now + HALF
    ensures Diff(Wrap(now), Wrap(due)) >= 0 <==> now >= due
  {
    assert now == now / MODULUS * MODULUS + Wrap(now);
    assert due == due / MODULUS * MODULUS + Wrap(due);
  }

  lemma LongerIs(cfg: Config, estimate: U32, rto: U32)
    requires rto < HALF && estimate <= RTO_MAX
    ensures ControlBlock.Backoff(cfg, estimate, rto) == Longer(cfg.nodelay, estimate, rto)
  {
  }

  lemma DecideIs(cfg: Config, x: OutSeg, now: nat, s: Stage)
    requires cfg.Valid() && Matches(x, s) && InRange(s, now)
    ensures Decide(cfg, Wrap(now), x) == Expected(cfg, s, now)
  {
    DiffIsOrder(now, s.due);
  }

  lemma TouchIs(cfg: Config, x: OutSeg, estimate: U32, now: nat, s: Stage)
    requires cfg.Valid() && Matches(x, s) && InRange(s, now) && estimate <= RTO_MAX
    ensures Matches(Touch(cfg, Wrap(now), estimate, x), Resent(cfg, estimate, now, s))
  {
    hide Decide, Expected, ControlBlock.Backoff, Longer;
    DecideIs(cfg, x, now, s);
    LongerIs(cfg, estimate, x.rto);
    WrapAdd(now, x.rto);
    WrapAdd(now, ControlBlock.Backoff(cfg, estimate, x.rto));
  }

  lemma {:induction false} StepIsIdeal(cfg: Config, cb: Cb, c: Call, x: OutSeg, t: nat, now: nat, s: Stage)
    requires Inv(cfg, cb) && Matches(x, s) && InRange(s, now)
    requires cb.clock.current == Wrap(t) && (if c.CallUpdate? then c.now == Wrap(now) else now == t)
    ensures Why(cfg, cb, c, x) == if FlushesNow(cb, c) then Expected(cfg, s, now) else Keep
    ensures Matches(Aged(cfg, cb, c, x), Later(cfg, cb, c, x, now, s))
  {
    hide Decide, Expected, Touch, Resent, SendInv, RecvInv, SizeInv, FlushDue, Tick;
    DecideIs(cfg, x, now, s);
    TouchIs(cfg, x, cb.rtt.rto, now, s);
  }

  lemma {:induction false} LifeIsIdeal(cfg: Config, cb: Cb, calls: seq<Call>, x: OutSeg, t: nat, ts: seq<nat>, s: Stage)
    requires Inv(cfg, cb) && Clocked(cfg, cb, calls, t, ts) && Matches(x, s)
    ensures Lives(cfg, cb, calls, x, ts, s)
    decreases |calls|
  {
    if calls != [] && InRange(s, ts[0]) {
      hide Inv, Perform, Aged, Later, Expected, Why, Matches, InRange, FlushesNow;
      var c := calls[0];
      StepIsIdeal(cfg, cb, c, x, t, ts[0], s);
      if x in cb.snd.buf {
        SentIff(cfg, cb, c, x);
      }
      PerformInv(cfg, cb, c);
      LifeIsIdeal(cfg, Perform(cfg, cb, c), calls[1..], Aged(cfg, cb, c, x), ts[0], ts[1..],
                  Later(cfg, cb, c, x, ts[0], s));
    }
  }

  // A flush no earlier than the end of the timer sends the segment, whatever the mode.
  lemma {:induction false} DueIsSent(cfg: Config, cb: Cb, c: Call, x: OutSeg, t: nat, now: nat, s: Stage)
    requires Inv(cfg, cb) && x in cb.snd.buf && Matches(x, s) && InRange(s, now) && FlushesNow(cb, c)
    requires cb.clock.current == Wrap(t) && (if c.CallUpdate? then c.now == Wrap(now) else now == t)
    requires now >= s.due
    ensures SaysNumber(Spoken(cfg, cb, c), x.sn)
    ensures Aged(cfg, cb, c, x).rto == Longer(cfg.nodelay, cb.rtt.rto, s.rto)
  {
    hide Inv, Spoken, SaysNumber;
    StepIsIdeal(cfg, cb, c, x, t, now, s);
    SentIff(cfg, cb, c, x);
  }

  // The first timer runs for the estimate, and an eighth of it more without nodelay.
  function Newborn(cfg: Config, estimate: nat, sent: nat): Stage {
    Stage(estimate, sent + estimate + (if cfg.nodelay == 0 then estimate / 8 else 0), 1, 0)
  }

  // The whole life of a segment, from the flush that numbers it on: that flush says its data, and
  // every later call sends it exactly when the ideal life does.
  lemma {:induction false} WholeLife(cfg: Config, cb: Cb, c: Call, calls: seq<Call>, y: OutSeg, sent: nat, ts: seq<nat>)
    requires Born(cfg, cb, c, y, sent) && Clocked(cfg, Perform(cfg, cb, c), calls, sent, ts)
    ensures SaysNumber(Spoken(cfg, cb, c), y.sn)
    ensures Lives(cfg, Perform(cfg, cb, c), calls, y, ts, Newborn(cfg, cb.rtt.rto, sent))
  {
    hide Lives, Perform, Spoken, SaysNumber;
    BornFacts(cfg, cb, c, y, sent);
    FirstSend(cfg, cb, c, y);
    WrapAdd(sent, y.rto + FirstDelay(cfg, y.rto));
    BornIsSaid(cfg, cb, c, y, sent);
    PerformInv(cfg, cb, c);
    LifeIsIdeal(cfg, Perform(cfg, cb, c), calls, y, sent, ts, Newborn(cfg, cb.rtt.rto, sent));
  }

  lemma {:induction false} BornIsSaid(cfg: Config, cb: Cb, c: Call, y: OutSeg, sent: nat)
    requires Born(cfg, cb, c, y, sent)
    ensures SaysNumber(Spoken(cfg, cb, c), y.sn)
  {
    BornFlushes(cfg, cb, c, y, sent);
    hide Inv, FlushMsgs, FlushState, Ticked;
    SpokenIs(cfg, cb, c);
    AdmittedIsSaid(cfg, AtFlush(cfg, cb, c), y);
  }

  lemma {:induction false} BornFlushes(cfg: Config, cb: Cb, c: Call, y: OutSeg, sent: nat)
    requires Born(cfg, cb, c, y, sent)
    ensures cfg.Valid() && Inv(cfg, cb) && FlushesNow(cb, c)
    ensures var at := AtFlush(cfg, cb, c);
      Inv(cfg, at) && at.clock.updated && y in FlushState(cfg, at).snd.buf && y.sn !in Numbers(at.snd.buf)
  {
    hide FlushState, SendInv, RecvInv, SizeInv;
    FirstSend(cfg, cb, c, y);
    if !FlushesNow(cb, c) {
      NothingFlushed(cfg, cb, c);
    }
  }

  lemma NothingFlushed(cfg: Config, cb: Cb, c: Call)
    requires cfg.Valid() && (c.CallFlush? || c.CallUpdate?) && !FlushesNow(cb, c)
    ensures Perform(cfg, cb, c).snd == cb.snd
  {
  }

  lemma {:induction false} AdmittedIsSaid(cfg: Config, cb: Cb, y: OutSeg)
    requires Inv(cfg, cb) && cb.clock.updated && y in FlushState(cfg, cb).snd.buf && y.sn !in Numbers(cb.snd.buf)
    ensures SaysNumber(FlushMsgs(cfg, cb), y.sn)
  {
    hide FlushMsgs, DataMsgs;
    var p, now := Prepared(cfg, cb), cb.clock.current;
    var i :| 0 <= i < |p.buf| && Touch(cfg, now, cb.rtt.rto, p.buf[i]) == y;
    forall j | 0 <= j < |cb.snd.buf| ensures p.buf[j].sn in Numbers(cb.snd.buf) {
      assert cb.snd.buf[j] in cb.snd.buf;
    }
    assert p.buf[i] == Admitted(cb.snd, i - |cb.snd.buf|, now, cb.rtt.rto);
    DataOf(cfg, cb.rcv, now, p.buf, p.buf[i]);
    PushIsData(cfg, cb, DataMsg(cfg.rcvWnd, cb.rcv, now, p.buf[i]));
  }

  // The n-th timeout, in every mode

  // How long the timeouts of a run have waited in all, the first for `r`.
  function Waited(cfg: Config, cb: Cb, calls: seq<Call>, x: OutSeg, r: nat): nat
    requires cfg.Valid()
    decreases |calls|
  {
    if calls == [] then 0
    else
      var next, y := Perform(cfg, cb, calls[0]), Aged(cfg, cb, calls[0], x);
      if Why(cfg, cb, calls[0], x) == Timeout
      then r + Waited(cfg, next, calls[1..], y, Longer(cfg.nodelay, cb.rtt.rto, r))
      else Waited(cfg, next, calls[1..], y, r)
  }

  lemma {:induction false} NoneWaited(cfg: Config, cb: Cb, calls: seq<Call>, x: OutSeg, r: nat)
    requires cfg.Valid() && Times(cfg, cb, calls, x, Timeout) == 0
    ensures Waited(cfg, cb, calls, x, r) == 0
    decreases |calls|
  {
    if calls != [] {
      NoneWaited(cfg, Perform(cfg, cb, calls[0]), calls[1..], Aged(cfg, cb, calls[0], x), r);
    }
  }

  // A timeout waits for the timer, and makes it longer.
  lemma LongerStep(cfg: Config, cb: Cb, c: Call, x: OutSeg, sent: nat, t: nat, due: nat, now: nat)
    requires Inv(cfg, cb) && 1 <= x.xmit < HALF && x.rto < HALF && Armed(x, sent, t, due)
    requires t <= now && cb.clock.current == Wrap(t) && (if c.CallUpdate? then c.now == Wrap(now) else now == t)
    requires Why(cfg, cb, c, x) == Timeout
    ensures now >= sent + x.rto
    ensures var y := Aged(cfg, cb, c, x);
      && y.rto == Longer(cfg.nodelay, cb.rtt.rto, x.rto) && x.xmit <= y.xmit <= x.xmit + 1
      && (y.rto < HALF ==> Armed(y, now, now, now + y.rto))
  {
    if now < due {
      DiffOfTimes(now, due);
    }
    LongerIs(cfg, cb.rtt.rto, x.rto);
    WrapAdd(now, Aged(cfg, cb, c, x).rto);
  }

  lemma LongerBelow(nodelay: nat, estimate: nat, r: nat)
    requires estimate <= RTO_MAX && Longer(nodelay, estimate, r) >= HALF
    ensures r >= HALF / 2
  {
  }

  lemma KeptCounter(cfg: Config, cb: Cb, c: Call, x: OutSeg)
    requires cfg.Valid() && 1 <= x.xmit < HALF
    ensures x.xmit <= Aged(cfg, cb, c, x).xmit <= x.xmit + 1
  {
  }

  // A timeout comes no earlier than all the waits before it, up to twelve days.
  lemma {:induction false} TimeoutsWait(cfg: Config, cb: Cb, calls: seq<Call>, x: OutSeg, sent: nat, t: nat, due: nat,
      ts: seq<nat>)
    requires Inv(cfg, cb) && x.xmit + |calls| < HALF && x.rto < HALF
    requires Clocked(cfg, cb, calls, t, ts) && Armed(x, sent, t, due)
    ensures Times(cfg, cb, calls, x, Timeout) > 0 ==>
      ts[|ts| - 1] >= sent + Min(Waited(cfg, cb, calls, x, x.rto), HALF / 2)
    decreases |calls|
  {
    hide Perform, Inv, Armed, Aged, Why, Longer;
    BackoffStarts(cfg, cb, x, sent, t, due);
    var n := Times(cfg, cb, calls, x, Timeout);
    if n > 0 {
      var c, now := calls[0], ts[0];
      var next, y := Perform(cfg, cb, c), Aged(cfg, cb, c, x);
      PerformInv(cfg, cb, c);
      EstimateInRange(cfg, cb);
      ClockForward(cfg, cb, calls, t, ts);
      KeptCounter(cfg, cb, c, x);
      if Why(cfg, cb, c, x) == Timeout {
        LongerStep(cfg, cb, c, x, sent, t, due, now);
        if y.rto >= HALF {
          LongerBelow(cfg.nodelay, cb.rtt.rto, x.rto);
        } else if n == 1 {
          NoneWaited(cfg, next, calls[1..], y, y.rto);
        } else {
          TimeoutsWait(cfg, next, calls[1..], y, now, now, now + y.rto, ts[1..]);
        }
      } else {
        var later := ArmedStep(cfg, cb, c, x, sent, t, due, now);
        TimeoutsWait(cfg, next, calls[1..], y, sent, now, later, ts[1..]);
      }
    }
  }

  lemma EstimateInRange(cfg: Config, cb: Cb)
    requires Inv(cfg, cb)
    ensures cfg.Valid() && cb.rtt.rto <= RTO_MAX && (cfg.nodelay != 0 ==> cb.rtt.rto >= 30)
  {
  }

  // The sum of `n` waits, the first `r`, each longer than the one before by half of itself.
  function Halves(r: nat, n: nat): nat
    decreases n
  {
    if n == 0 then 0 else r + Halves(r + r / 2, n - 1)
  }

  // The same, each longer than the one before by 15.
  function Fifteens(r: nat, n: nat): nat
    decreases n
  {
    if n == 0 then 0 else r + Fifteens(r + 15, n - 1)
  }

  lemma {:induction false} FifteensGrow(r: nat, s: nat, n: nat)
    requires r <= s
    ensures Fifteens(r, n) <= Fifteens(s, n)
    decreases n
  {
    if n > 0 {
      FifteensGrow(r + 15, s + 15, n - 1);
    }
  }

  // What the waits come to in each of the other two modes.
  lemma {:induction false} WaitsAdd(cfg: Config, cb: Cb, calls: seq<Call>, x: OutSeg, r: nat)
    requires Inv(cfg, cb)
    ensures var n, w := Times(cfg, cb, calls, x, Timeout), Waited(cfg, cb, calls, x, r);
      (cfg.nodelay == 1 ==> w == Halves(r, n)) && (cfg.nodelay >= 2 ==> w >= Fifteens(r, n))
    decreases |calls|
  {
    hide Inv, Perform, Aged, Why;
    EstimateInRange(cfg, cb);
    if calls != [] {
      var c := calls[0];
      var next, y := Perform(cfg, cb, c), Aged(cfg, cb, c, x);
      PerformInv(cfg, cb, c);
      if Why(cfg, cb, c, x) == Timeout {
        var longer := Longer(cfg.nodelay, cb.rtt.rto, r);
        WaitsAdd(cfg, next, calls[1..], y, longer);
        if cfg.nodelay >= 2 {
          FifteensGrow(r + 15, longer, Times(cfg, next, calls[1..], y, Timeout));
        }
      } else {
        WaitsAdd(cfg, next, calls[1..], y, r);
      }
    }
  }

  // With nodelay 1 the n-th timeout of a segment comes no earlier than its first sending plus n waits,
  // each half as long again as the one before; with a larger nodelay each wait is longer than the one
  // before by half of the estimate in force, so by 15 at least.
  lemma {:induction false} QuickBackoff(cfg: Config, cb: Cb, c: Call, calls: seq<Call>, y: OutSeg, sent: nat,
      ts: seq<nat>)
    requires Born(cfg, cb, c, y, sent) && cfg.nodelay != 0 && |calls| < HALF - 1
    requires Clocked(cfg, Perform(cfg, cb, c), calls, sent, ts)
    ensures var next := Perform(cfg, cb, c);
      var n := Times(cfg, next, calls, y, Timeout);
      n > 0 ==>
        && ts[|ts| - 1] >= sent + Min(Waited(cfg, next, calls, y, y.rto), HALF / 2)
        && (cfg.nodelay == 1 ==> ts[|ts| - 1] >= sent + Min(Halves(y.rto, n), HALF / 2))
        && (cfg.nodelay >= 2 ==> ts[|ts| - 1] >= sent + Min(Fifteens(y.rto, n), HALF / 2))
  {
    hide Inv, Perform, Born, Armed, Clocked, Times, Waited, Halves, Fifteens;
    BornFacts(cfg, cb, c, y, sent);
    var next := Perform(cfg, cb, c);
    PerformInv(cfg, cb, c);
    BornArmed(cfg, cb, c, y, sent);
    TimeoutsWait(cfg, next, calls, y, sent, sent, sent + y.rto + FirstDelay(cfg, y.rto), ts);
    WaitsAdd(cfg, next, calls, y, y.rto);
  }
}
