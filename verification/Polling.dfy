/** A closed window is asked for, and the answer opens it: when the questions of a blocked sender come,
    what replies to them, and what the sender learns. */
module Polling {
  import opened Serial
  import opened Wire
  import opened ControlBlock
  import opened Endpoint
  import opened Life
  import opened Timers
  import opened Network
  import opened Probing
  import opened Progress

  // Questions on the wire

  // Some message asks for the window.
  predicate AsksFor(msgs: seq<Msg>) {
    exists m :: m in msgs && m.cmd == CMD_WASK
  }

  // Some message tells it.
  predicate Tells(msgs: seq<Msg>) {
    exists m :: m in msgs && m.cmd == CMD_WINS
  }

  // What an idle or running probe timer does at a flush: a question is in the datagrams of a call if
  // and only if it flushes, the window of the peer is closed, and the timer has run out.
  lemma {:induction false} AskedIff(cfg: Config, cb: Cb, c: Call, t: nat, now: nat, due: nat)
    requires Inv(cfg, cb) && ProbeInv(cb.probe) && (cb.probe.wait > 0 ==> cb.probe.ts == Wrap(due))
    requires cb.clock.current == Wrap(t) && (if c.CallUpdate? then c.now == Wrap(now) else now == t)
    requires now < due + HALF && due < now + HALF
    ensures AsksFor(Spoken(cfg, cb, c)) <==>
      FlushesNow(cb, c) && cb.cong.rmtWnd == 0 && cb.probe.wait > 0 && now >= due
  {
    hide Inv, FlushMsgs, Diff;
    SpokenIs(cfg, cb, c);
    InvValid(cfg, cb);
    if FlushesNow(cb, c) {
      AskedIs(cfg, AtFlush(cfg, cb, c));
      TimesInOrder(now, due);
    }
  }

  lemma InvValid(cfg: Config, cb: Cb)
    requires Inv(cfg, cb)
    ensures cfg.Valid()
  {
  }

  lemma TimesInOrder(now: nat, due: nat)
    requires now < due + HALF && due < now + HALF
    ensures Diff(Wrap(now), Wrap(due)) >= 0 <==> now >= due
  {
    assert now == now / MODULUS * MODULUS + Wrap(now);
    assert due == due / MODULUS * MODULUS + Wrap(due);
  }

  // The schedule of the questions

  // Every flush of the run sees the window of the peer closed.
  predicate Shut(cfg: Config, cb: Cb, calls: seq<Call>)
    requires cfg.Valid()
    decreases |calls|
  {
    calls != [] ==>
      (FlushesNow(cb, calls[0]) ==> cb.cong.rmtWnd == 0) && Shut(cfg, Perform(cfg, cb, calls[0]), calls[1..])
  }

  // The wait after a wait of `w`: half as long again, up to two minutes.
  function LongerWait(w: nat): nat {
    Min(120000, w + w / 2)
  }

  // The questions of a run: one at the first flush at or after `due`, then one at the first flush at
  // or after each further wait. A flush that comes 2^31 late ends what is said.
  predicate AskedOnTime(cfg: Config, cb: Cb, calls: seq<Call>, ts: seq<nat>, w: nat, due: nat)
    requires cfg.Valid() && |ts| == |calls|
    decreases |calls|
  {
    calls != [] && ts[0] < due + HALF ==>
      var asks := FlushesNow(cb, calls[0]) && ts[0] >= due;
      && (AsksFor(Spoken(cfg, cb, calls[0])) <==> asks)
      && AskedOnTime(cfg, Perform(cfg, cb, calls[0]), calls[1..], ts[1..],
                     if asks then LongerWait(w) else w, if asks then ts[0] + LongerWait(w) else due)
  }

  // At the instant `t` the probe timer runs until `due`, after a wait of `w`.
  predicate Running(p: Probe, w: nat, due: nat, t: nat) {
    !p.askSend && p.wait == w && 7000 <= w <= 120000 && p.ts == Wrap(due) && due <= t + 120000
  }

  lemma {:induction false} RunningStep(cfg: Config, cb: Cb, c: Call, w: nat, due: nat, t: nat, now: nat)
    requires Inv(cfg, cb) && Running(cb.probe, w, due, t) && t <= now < due + HALF
    requires cb.clock.current == Wrap(t) && (if c.CallUpdate? then c.now == Wrap(now) else now == t)
    requires FlushesNow(cb, c) ==> cb.cong.rmtWnd == 0
    ensures var asks := FlushesNow(cb, c) && now >= due;
      && (AsksFor(Spoken(cfg, cb, c)) <==> asks)
      && Running(Perform(cfg, cb, c).probe, if asks then LongerWait(w) else w,
                 if asks then now + LongerWait(w) else due, now)
  {
    hide Inv, FlushMsgs, Perform, Diff, Wrap, Add;
    InvValid(cfg, cb);
    AskedIff(cfg, cb, c, t, now, due);
    CallProbe(cfg, cb, c);
    if FlushesNow(cb, c) {
      TimesInOrder(now, due);
      WrapSmall(w + w / 2);
      WrapAdd(now, LongerWait(w));
    }
  }

  lemma {:induction false} FirstCall(cfg: Config, cb: Cb, calls: seq<Call>, t: nat, ts: seq<nat>)
    requires cfg.Valid() && Clocked(cfg, cb, calls, t, ts) && Shut(cfg, cb, calls) && calls != []
    ensures |ts| == |calls| && cb.clock.current == Wrap(t) && t <= ts[0]
    ensures if calls[0].CallUpdate? then calls[0].now == Wrap(ts[0]) else ts[0] == t
    ensures FlushesNow(cb, calls[0]) ==> cb.cong.rmtWnd == 0
    ensures var next := Perform(cfg, cb, calls[0]);
      Clocked(cfg, next, calls[1..], ts[0], ts[1..]) && Shut(cfg, next, calls[1..])
  {
    hide Perform, FlushesNow;
  }

  lemma {:induction false} ShutSchedule(cfg: Config, cb: Cb, calls: seq<Call>, t: nat, ts: seq<nat>, w: nat, due: nat)
    requires Inv(cfg, cb) && Running(cb.probe, w, due, t) && Clocked(cfg, cb, calls, t, ts) && Shut(cfg, cb, calls)
    ensures AskedOnTime(cfg, cb, calls, ts, w, due)
    decreases |calls|
  {
    if calls != [] && ts[0] < due + HALF {
      hide Inv, Perform, Running, Spoken, AsksFor, FlushesNow, Clocked, Shut, LongerWait,
        AskedOnTime;
      var c, now := calls[0], ts[0];
      var asks := FlushesNow(cb, c) && now >= due;
      FirstCall(cfg, cb, calls, t, ts);
      RunningStep(cfg, cb, c, w, due, t, now);
      PerformInv(cfg, cb, c);
      var longer, later := if asks then LongerWait(w) else w, if asks then now + LongerWait(w) else due;
      ShutSchedule(cfg, Perform(cfg, cb, c), calls[1..], now, ts[1..], longer, later);
      AskedStep(cfg, cb, calls, ts, w, due, longer, later);
    }
  }

  lemma {:induction false} AskedStep(cfg: Config, cb: Cb, calls: seq<Call>, ts: seq<nat>, w: nat, due: nat,
      longer: nat, later: nat)
    requires cfg.Valid() && |ts| == |calls| && calls != [] && ts[0] < due + HALF
    requires var asks := FlushesNow(cb, calls[0]) && ts[0] >= due;
      && (AsksFor(Spoken(cfg, cb, calls[0])) <==> asks)
      && longer == (if asks then LongerWait(w) else w) && later == (if asks then ts[0] + LongerWait(w) else due)
    requires AskedOnTime(cfg, Perform(cfg, cb, calls[0]), calls[1..], ts[1..], longer, later)
    ensures AskedOnTime(cfg, cb, calls, ts, w, due)
  {
    hide Perform, FlushesNow, Spoken, AsksFor, LongerWait;
  }

  // The first flush that sees the window closed starts the timer, for seven seconds.
  lemma {:induction false} TimerStarts(cfg: Config, cb: Cb, c: Call, t: nat, now: nat)
    requires Inv(cfg, cb) && ProbeInv(cb.probe) && cb.probe.wait == 0 && FlushesNow(cb, c) && cb.cong.rmtWnd == 0
    requires cb.clock.current == Wrap(t) && (if c.CallUpdate? then c.now == Wrap(now) else now == t)
    ensures !AsksFor(Spoken(cfg, cb, c)) && Running(Perform(cfg, cb, c).probe, 7000, now + 7000, now)
  {
    hide Inv, FlushMsgs, Perform, Wrap, Add;
    InvValid(cfg, cb);
    AskedIff(cfg, cb, c, t, now, now);
    CallProbe(cfg, cb, c);
    WrapAdd(now, 7000);
  }

  // A flush that sees it open stops the timer.
  lemma {:induction false} TimerStops(cfg: Config, cb: Cb, c: Call)
    requires cfg.Valid() && ProbeInv(cb.probe) && FlushesNow(cb, c) && cb.cong.rmtWnd != 0
    ensures Perform(cfg, cb, c).probe.wait == 0
  {
    hide Perform;
    CallProbe(cfg, cb, c);
  }

  // While the window stays closed, from the first flush that sees it: that flush asks nothing, the
  // first flush seven seconds later asks, and then the first one after each wait.
  lemma {:induction false} ClosedSchedule(cfg: Config, cb: Cb, calls: seq<Call>, t: nat, ts: seq<nat>)
    requires Inv(cfg, cb) && ProbeInv(cb.probe) && cb.probe.wait == 0 && Clocked(cfg, cb, calls, t, ts)
    requires calls != [] && FlushesNow(cb, calls[0]) && Shut(cfg, cb, calls)
    ensures !AsksFor(Spoken(cfg, cb, calls[0]))
    ensures AskedOnTime(cfg, Perform(cfg, cb, calls[0]), calls[1..], ts[1..], 7000, ts[0] + 7000)
  {
    hide Inv, ProbeInv, Perform, Running, Spoken, AsksFor, FlushesNow, AskedOnTime;
    TimerStarts(cfg, cb, calls[0], t, ts[0]);
    PerformInv(cfg, cb, calls[0]);
    ShutSchedule(cfg, Perform(cfg, cb, calls[0]), calls[1..], ts[0], ts[1..], 7000, ts[0] + 7000);
  }

  // How many calls of a run ask.
  function Questions(cfg: Config, cb: Cb, calls: seq<Call>): nat
    requires cfg.Valid()
    decreases |calls|
  {
    if calls == [] then 0
    else (if AsksFor(Spoken(cfg, cb, calls[0])) then 1 else 0) + Questions(cfg, Perform(cfg, cb, calls[0]), calls[1..])
  }

  // The last call of the run flushes.
  predicate EndsInFlush(cfg: Config, cb: Cb, calls: seq<Call>)
    requires cfg.Valid()
    decreases |calls|
  {
    calls != [] &&
    if |calls| == 1 then FlushesNow(cb, calls[0]) else EndsInFlush(cfg, Perform(cfg, cb, calls[0]), calls[1..])
  }

  lemma {:induction false} AskedByThen(cfg: Config, cb: Cb, calls: seq<Call>, t: nat, ts: seq<nat>, w: nat, due: nat)
    requires cfg.Valid() && Clocked(cfg, cb, calls, t, ts) && AskedOnTime(cfg, cb, calls, ts, w, due)
    requires EndsInFlush(cfg, cb, calls) && due <= ts[|ts| - 1] < due + HALF
    ensures Questions(cfg, cb, calls) >= 1
    decreases |calls|
  {
    hide Perform, Spoken, AsksFor, FlushesNow;
    ClockForward(cfg, cb, calls, t, ts);
    if |calls| > 1 && !(FlushesNow(cb, calls[0]) && ts[0] >= due) {
      assert ts[1..][|ts| - 2] == ts[|ts| - 1];
      AskedByThen(cfg, Perform(cfg, cb, calls[0]), calls[1..], ts[0], ts[1..], w, due);
    }
  }

  // A closed window is asked for: once a flush has seen it closed, a flush seven seconds later comes
  // no earlier than the first question.
  lemma {:induction false} ClosedIsAsked(cfg: Config, cb: Cb, calls: seq<Call>, t: nat, ts: seq<nat>)
    requires Inv(cfg, cb) && ProbeInv(cb.probe) && cb.probe.wait == 0 && Clocked(cfg, cb, calls, t, ts)
    requires calls != [] && FlushesNow(cb, calls[0]) && Shut(cfg, cb, calls) && EndsInFlush(cfg, cb, calls)
    requires ts[0] + 7000 <= ts[|ts| - 1] < ts[0] + HALF
    ensures Questions(cfg, cb, calls) >= 1
  {
    hide Inv, ProbeInv, Perform, Spoken, AsksFor, FlushesNow, AskedOnTime, Shut;
    InvValid(cfg, cb);
    var next := Perform(cfg, cb, calls[0]);
    ClosedSchedule(cfg, cb, calls, t, ts);
    assert ts[1..][|ts| - 2] == ts[|ts| - 1];
    AskedByThen(cfg, next, calls[1..], ts[0], ts[1..], 7000, ts[0] + 7000);
  }

  // And it is asked for again: from a question on, a flush two minutes later comes no earlier than
  // the next one.
  lemma {:induction false} AskedAgain(cfg: Config, cb: Cb, calls: seq<Call>, t: nat, ts: seq<nat>, w: nat, due: nat)
    requires Inv(cfg, cb) && Running(cb.probe, w, due, t) && Clocked(cfg, cb, calls, t, ts)
    requires calls != [] && Shut(cfg, cb, calls) && AsksFor(Spoken(cfg, cb, calls[0])) && ts[0] < due + HALF
    requires EndsInFlush(cfg, cb, calls) && ts[0] + 120000 <= ts[|ts| - 1] < ts[0] + HALF
    ensures Questions(cfg, cb, calls) >= 2
  {
    hide Inv, Perform, Spoken, AsksFor, FlushesNow, AskedOnTime;
    InvValid(cfg, cb);
    var next := Perform(cfg, cb, calls[0]);
    RunningStep(cfg, cb, calls[0], w, due, t, ts[0]);
    PerformInv(cfg, cb, calls[0]);
    ShutSchedule(cfg, next, calls[1..], ts[0], ts[1..], LongerWait(w), ts[0] + LongerWait(w));
    assert ts[1..][|ts| - 2] == ts[|ts| - 1];
    AskedByThen(cfg, next, calls[1..], ts[0], ts[1..], LongerWait(w), ts[0] + LongerWait(w));
  }

  // Answers

  // No call of the run flushes.
  predicate Quiet(cfg: Config, cb: Cb, calls: seq<Call>)
    requires cfg.Valid()
    decreases |calls|
  {
    calls != [] ==> !FlushesNow(cb, calls[0]) && Quiet(cfg, Perform(cfg, cb, calls[0]), calls[1..])
  }

  lemma {:induction false} ApplyAllTells(cfg: Config, cb: Cb, msgs: seq<Msg>)
    requires cfg.Valid()
    ensures ApplyAll(cfg, cb, msgs).probe.askTell == (cb.probe.askTell || AsksFor(msgs))
    decreases |msgs|
  {
    if msgs != [] {
      ApplyAllTells(cfg, Apply(cfg, cb, msgs[0]), msgs[1..]);
      assert forall m :: m in msgs <==> m == msgs[0] || m in msgs[1..];
    }
  }

  lemma {:induction false} StillTells(cfg: Config, cb: Cb, c: Call)
    requires cfg.Valid() && cb.probe.askTell && !FlushesNow(cb, c)
    ensures Perform(cfg, cb, c).probe.askTell
  {
    if c.CallInput? {
      ApplyAllTells(cfg, cb, Read(cfg.conv, cfg.token, c.datagram).msgs);
    }
  }

  lemma {:induction false} QuietTells(cfg: Config, cb: Cb, calls: seq<Call>)
    requires Inv(cfg, cb) && cb.probe.askTell && Quiet(cfg, cb, calls)
    ensures PerformAll(cfg, cb, calls).probe.askTell && Inv(cfg, PerformAll(cfg, cb, calls))
    decreases |calls|
  {
    hide Inv, Perform, FlushesNow;
    InvValid(cfg, cb);
    if calls != [] {
      StillTells(cfg, cb, calls[0]);
      PerformInv(cfg, cb, calls[0]);
      QuietTells(cfg, Perform(cfg, cb, calls[0]), calls[1..]);
    }
  }

  lemma {:induction false} FlushTells(cfg: Config, cb: Cb)
    requires cfg.Valid() && cb.probe.askTell
    ensures Tells(FlushMsgs(cfg, cb))
  {
    hide DataMsgs, AckMsgs;
    var tell := Control(cfg.rcvWnd, cb.rcv, CMD_WINS, LastAck(cb.acklist));
    var probe := ProbeTimer(cb.probe, cb.cong.rmtWnd, cb.clock.current);
    var probes := ProbeMsgs(cfg.rcvWnd, cb.rcv, probe, LastAck(cb.acklist));
    assert probes[|probes| - 1] == tell;
    assert tell in FlushMsgs(cfg, cb);
  }

  // Calls that do not flush do not forget that the window is to be told; the next flush tells it.
  lemma {:induction false} ToldByNextFlush(cfg: Config, cb: Cb, calls: seq<Call>, c: Call)
    requires Inv(cfg, cb) && cb.probe.askTell && Quiet(cfg, cb, calls)
    requires FlushesNow(PerformAll(cfg, cb, calls), c)
    ensures Tells(Spoken(cfg, PerformAll(cfg, cb, calls), c))
  {
    hide Inv, Quiet, FlushMsgs, PerformAll;
    InvValid(cfg, cb);
    var last := PerformAll(cfg, cb, calls);
    QuietTells(cfg, cb, calls);
    SpokenIs(cfg, last, c);
    FlushTells(cfg, AtFlush(cfg, last, c));
  }

  // A question that arrives is answered by the next flush.
  lemma {:induction false} QuestionIsAnswered(cfg: Config, cb: Cb, d: Bytes, calls: seq<Call>, c: Call)
    requires Inv(cfg, cb) && OVERHEAD <= |d| < HALF && AsksFor(Read(cfg.conv, cfg.token, d).msgs)
    requires var r := Input(cfg, cb, d).0; Quiet(cfg, r, calls) && FlushesNow(PerformAll(cfg, r, calls), c)
    ensures Tells(Spoken(cfg, PerformAll(cfg, Input(cfg, cb, d).0, calls), c))
  {
    InputTells(cfg, cb, d);
    InputInv(cfg, cb, d);
    hide Inv, Quiet, Input;
    ToldByNextFlush(cfg, Input(cfg, cb, d).0, calls, c);
  }

  lemma {:induction false} InputTells(cfg: Config, cb: Cb, d: Bytes)
    requires cfg.Valid() && OVERHEAD <= |d| < HALF
    ensures Input(cfg, cb, d).0.probe.askTell == (cb.probe.askTell || AsksFor(Read(cfg.conv, cfg.token, d).msgs))
  {
    hide ApplyAll, Read, Grow, ParseFastack, NewestAck, AsksFor;
    ApplyAllTells(cfg, cb, Read(cfg.conv, cfg.token, d).msgs);
  }

  // When the user makes room in a full receive queue, the next flush tells the window unasked.
  lemma {:induction false} RoomIsTold(cfg: Config, cb: Cb, len: int, calls: seq<Call>, c: Call)
    requires Inv(cfg, cb) && |cb.rcv.queue| == cfg.rcvWnd && Recv(cfg, cb, len).code >= 0
    requires var r := Recv(cfg, cb, len).cb;
      |r.rcv.queue| < cfg.rcvWnd && Quiet(cfg, r, calls) && FlushesNow(PerformAll(cfg, r, calls), c)
    ensures Tells(Spoken(cfg, PerformAll(cfg, Recv(cfg, cb, len).cb, calls), c))
  {
    RecvKeepsInv(cfg, cb, len);
    RecvTells(cfg, cb, len);
    hide Inv, Quiet, Recv;
    ToldByNextFlush(cfg, Recv(cfg, cb, len).cb, calls, c);
  }

  lemma {:induction false} RecvTells(cfg: Config, cb: Cb, len: int)
    requires cfg.Valid() && |cb.rcv.queue| == cfg.rcvWnd && Recv(cfg, cb, len).code >= 0
    requires |Recv(cfg, cb, len).cb.rcv.queue| < cfg.rcvWnd
    ensures Recv(cfg, cb, len).cb.probe.askTell
  {
  }

  // A question arrives, or the user makes room in a full receive queue.
  predicate Prompts(cfg: Config, cb: Cb, c: Call)
    requires cfg.Valid()
  {
    || (c.CallInput? && Signed(Wrap(|c.datagram|)) >= OVERHEAD
        && AsksFor(Read(cfg.conv, cfg.token, c.datagram).msgs))
    || (c.CallRecv? && |cb.rcv.queue| >= cfg.rcvWnd && |Perform(cfg, cb, c).rcv.queue| < cfg.rcvWnd)
  }

  predicate Prompted(cfg: Config, cb: Cb, calls: seq<Call>)
    requires cfg.Valid()
    decreases |calls|
  {
    calls != [] && (Prompts(cfg, cb, calls[0]) || Prompted(cfg, Perform(cfg, cb, calls[0]), calls[1..]))
  }

  lemma {:induction false} CallTells(cfg: Config, cb: Cb, c: Call)
    requires cfg.Valid()
    ensures Perform(cfg, cb, c).probe.askTell == (!FlushesNow(cb, c) && (cb.probe.askTell || Prompts(cfg, cb, c)))
  {
    hide ApplyAll, Read, AsksFor, Promote;
    if c.CallInput? {
      ApplyAllTells(cfg, cb, Read(cfg.conv, cfg.token, c.datagram).msgs);
    }
  }

  lemma {:induction false} QuietPrompts(cfg: Config, cb: Cb, calls: seq<Call>)
    requires Inv(cfg, cb) && Quiet(cfg, cb, calls)
    ensures var r := PerformAll(cfg, cb, calls);
      Inv(cfg, r) && r.probe.askTell == (cb.probe.askTell || Prompted(cfg, cb, calls))
    decreases |calls|
  {
    hide Inv, Perform, FlushesNow, Prompts;
    InvValid(cfg, cb);
    if calls != [] {
      CallTells(cfg, cb, calls[0]);
      PerformInv(cfg, cb, calls[0]);
      QuietPrompts(cfg, Perform(cfg, cb, calls[0]), calls[1..]);
    }
  }

  lemma {:induction false} FlushTellsIff(cfg: Config, cb: Cb)
    requires cfg.Valid()
    ensures Tells(FlushMsgs(cfg, cb)) <==> cb.probe.askTell
  {
    hide DataMsgs, AckMsgs, ProbeTimer, Prepared, Tells;
    if cb.probe.askTell {
      FlushTells(cfg, cb);
    }
    NoWindow(cfg, cb);
  }

  lemma {:induction false} NoWindow(cfg: Config, cb: Cb)
    requires cfg.Valid()
    ensures !cb.probe.askTell ==> !Tells(FlushMsgs(cfg, cb))
  {
    hide ProbeTimer, Prepared;
    var probe := ProbeTimer(cb.probe, cb.cong.rmtWnd, cb.clock.current);
    var acks := AckMsgs(cfg.rcvWnd, cb.rcv, cb.acklist);
    var probes := ProbeMsgs(cfg.rcvWnd, cb.rcv, probe, LastAck(cb.acklist));
    var data := DataMsgs(cfg, cb.rcv, cb.clock.current, Prepared(cfg, cb).buf);
    TimerKeepsTell(cb.probe, cb.cong.rmtWnd, cb.clock.current);
    forall m | m in data ensures m.cmd == CMD_PUSH {
      DataMsgsMember(cfg, cb.rcv, cb.clock.current, Prepared(cfg, cb).buf, m);
    }
    assert FlushMsgs(cfg, cb) == acks + (probes + data);
  }

  lemma TimerKeepsTell(p: Probe, rmtWnd: U16, now: U32)
    ensures ProbeTimer(p, rmtWnd, now).askTell == p.askTell
  {
  }

  // Between two flushes: the second announces the window if and only if a question arrived since the
  // first, or room was made in a full receive queue.
  lemma {:induction false} ToldIff(cfg: Config, cb: Cb, first: Call, calls: seq<Call>, c: Call)
    requires Inv(cfg, cb) && FlushesNow(cb, first) && Quiet(cfg, Perform(cfg, cb, first), calls)
    requires FlushesNow(PerformAll(cfg, Perform(cfg, cb, first), calls), c)
    ensures var after := Perform(cfg, cb, first);
      Tells(Spoken(cfg, PerformAll(cfg, after, calls), c)) <==> Prompted(cfg, after, calls)
  {
    hide Inv, Quiet, FlushMsgs, PerformAll, Perform, Tells, Prompted, Prompts;
    InvValid(cfg, cb);
    var after := Perform(cfg, cb, first);
    CallTells(cfg, cb, first);
    PerformInv(cfg, cb, first);
    QuietPrompts(cfg, after, calls);
    var last := PerformAll(cfg, after, calls);
    SpokenIs(cfg, last, c);
    FlushTellsIff(cfg, AtFlush(cfg, last, c));
  }

  // What is learned

  // The room left in the receive queue, as far as the 16 bits of the header hold it.
  function FreeWindow(rcvWnd: nat, r: Receiver): nat {
    if |r.queue| <= rcvWnd then (rcvWnd - |r.queue|) % 0x1_0000 else 0
  }

  lemma {:induction false} DataTellsWindow(cfg: Config, r: Receiver, now: U32, buf: seq<OutSeg>)
    requires cfg.Valid()
    ensures forall m :: m in DataMsgs(cfg, r, now, buf) ==> m.wnd == FreeWindow(cfg.rcvWnd, r) && m.una == r.nxt
    decreases |buf|
  {
    if buf != [] {
      DataTellsWindow(cfg, r, now, buf[1..]);
    }
  }

  // Every message of a flush carries the free window and the next expected number.
  lemma {:induction false} FlushTellsWindow(cfg: Config, cb: Cb)
    requires cfg.Valid()
    ensures forall m :: m in FlushMsgs(cfg, cb) ==> m.wnd == FreeWindow(cfg.rcvWnd, cb.rcv) && m.una == cb.rcv.nxt
  {
    hide DataMsgs;
    DataTellsWindow(cfg, cb.rcv, cb.clock.current, Prepared(cfg, cb).buf);
  }

  lemma {:induction false} ApplyAllLearns(cfg: Config, cb: Cb, msgs: seq<Msg>)
    requires cfg.Valid()
    ensures ApplyAll(cfg, cb, msgs).cong ==
      if msgs == [] then cb.cong else cb.cong.(rmtWnd := msgs[|msgs| - 1].wnd)
    decreases |msgs|
  {
    if msgs != [] {
      ApplyAllLearns(cfg, Apply(cfg, cb, msgs[0]), msgs[1..]);
    }
  }

  // The window of the last message of a datagram is what its reader takes the peer's window to be.
  lemma {:induction false} InputLearns(cfg: Config, cb: Cb, d: Bytes)
    requires cfg.Valid() && OVERHEAD <= |d| < HALF
    ensures var msgs := Read(cfg.conv, cfg.token, d).msgs;
      Input(cfg, cb, d).0.cong.rmtWnd == if msgs == [] then cb.cong.rmtWnd else msgs[|msgs| - 1].wnd
  {
    hide ApplyAll, Read, ParseFastack, NewestAck;
    ApplyAllLearns(cfg, cb, Read(cfg.conv, cfg.token, d).msgs);
  }

  // Question and answer

  lemma InputTold(cfg: Config, cb: Cb, d: Bytes)
    requires cfg.Valid() && |d| < HALF
    ensures Input(cfg, cb, d).0.probe.askTell == (cb.probe.askTell || AsksFor(Read(cfg.conv, cfg.token, d).msgs))
  {
    hide Input, Read, AsksFor;
    if |d| < OVERHEAD {
      ShortInput(cfg, cb, d);
      NoQuestion();
    } else {
      InputTells(cfg, cb, d);
    }
  }

  lemma NoQuestion()
    ensures !AsksFor([])
  {
  }

  lemma {:induction false} InputAllTold(p: Peer, ds: seq<Bytes>)
    requires Sound(p) && forall d :: d in ds ==> |d| < HALF
    requires p.cb.probe.askTell || AsksFor(ReadAll(p.cfg.conv, p.cfg.token, ds))
    ensures Sound(InputAll(p, ds)) && InputAll(p, ds).cb.probe.askTell
    decreases |ds|
  {
    hide Inv, Input, Read;
    SoundConfig(p);
    if ds != [] {
      InputInv(p.cfg, p.cb, ds[0]);
      InputTold(p.cfg, p.cb, ds[0]);
      InputAllTold(p.(cb := Input(p.cfg, p.cb, ds[0]).0), ds[1..]);
    }
  }

  lemma InputHears(cfg: Config, cb: Cb, d: Bytes, w: U16)
    requires cfg.Valid() && |d| < HALF && forall m :: m in Read(cfg.conv, cfg.token, d).msgs ==> m.wnd == w
    ensures Input(cfg, cb, d).0.cong.rmtWnd == if Read(cfg.conv, cfg.token, d).msgs == [] then cb.cong.rmtWnd else w
  {
    hide Input;
    if |d| < OVERHEAD {
      ShortInput(cfg, cb, d);
    } else {
      InputLearns(cfg, cb, d);
    }
  }

  lemma ShortInput(cfg: Config, cb: Cb, d: Bytes)
    requires cfg.Valid() && |d| < OVERHEAD
    ensures Input(cfg, cb, d).0 == cb && Read(cfg.conv, cfg.token, d).msgs == []
  {
  }

  lemma {:induction false} InputAllHears(p: Peer, ds: seq<Bytes>, w: U16)
    requires Sound(p) && (forall d :: d in ds ==> |d| < HALF)
    requires forall m :: m in ReadAll(p.cfg.conv, p.cfg.token, ds) ==> m.wnd == w
    requires p.cb.cong.rmtWnd == w || ReadAll(p.cfg.conv, p.cfg.token, ds) != []
    ensures InputAll(p, ds).cb.cong.rmtWnd == w
    decreases |ds|
  {
    hide Inv, Input, Read;
    SoundConfig(p);
    if ds != [] {
      var said, rest := Read(p.cfg.conv, p.cfg.token, ds[0]).msgs, ReadAll(p.cfg.conv, p.cfg.token, ds[1..]);
      assert forall m :: m in said ==> m in said + rest;
      InputInv(p.cfg, p.cb, ds[0]);
      InputHears(p.cfg, p.cb, ds[0], w);
      assert said == [] ==> said + rest == rest;
      InputAllHears(p.(cb := Input(p.cfg, p.cb, ds[0]).0), ds[1..], w);
    }
  }

  // A blocked sender whose question arrives and whose answer comes back knows the free window of its
  // peer, and is blocked no longer unless that is empty.
  lemma {:induction false} WindowReopens(p: Peer, q: Peer)
    requires Sound(p) && Sound(q) && p.cfg.conv == q.cfg.conv && p.cfg.token == q.cfg.token
    requires p.cb.clock.updated && q.cb.clock.updated && AsksFor(FlushMsgs(p.cfg, p.cb))
    ensures Sound(Flushed(p)) && Sound(Delivered(p, q))
    ensures var r := Delivered(p, q);
      Delivered(r, Flushed(p)).cb.cong.rmtWnd == FreeWindow(r.cfg.rcvWnd, r.cb.rcv)
  {
    hide Inv, FlushMsgs, FlushOut, FlushState, InputAll, AsksFor;
    SoundConfig(p);
    FlushInv(p.cfg, p.cb);
    FlushOutShort(p);
    InputAllTold(q, FlushOut(p.cfg, p.cb));
    InputAllKeepsClock(q, FlushOut(p.cfg, p.cb));
    var r, t := Delivered(p, q), Flushed(p);
    SoundConfig(r);
    FlushOutShort(r);
    FlushTells(r.cfg, r.cb);
    FlushTellsWindow(r.cfg, r.cb);
    assert FlushMsgs(r.cfg, r.cb) != [];
    InputAllHears(t, FlushOut(r.cfg, r.cb), FreeWindow(r.cfg.rcvWnd, r.cb.rcv));
  }
}
