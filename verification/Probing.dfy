/** Two estimates that runs keep within bounds: when a closed window is asked for, and the
    retransmission timeout that follows the measured round trips. */
module Probing {
  import opened Serial
  import opened Wire
  import opened ControlBlock
  import opened Endpoint
  import opened Life
  import opened Timers

  // Window probes

  // The probe timer is off, or runs for between 7 and 120 seconds; no question is left over.
  predicate ProbeInv(p: Probe) {
    !p.askSend && (p.wait == 0 || PROBE_INIT <= p.wait <= PROBE_LIMIT)
  }

  // The call asks the peer for its window.
  predicate Asks(cfg: Config, cb: Cb, c: Call)
    requires cfg.Valid()
  {
    FlushesNow(cb, c) && exists m :: m in FlushMsgs(cfg, AtFlush(cfg, cb, c)) && m.cmd == CMD_WASK
  }

  lemma {:induction false} DataIsPush(cfg: Config, r: Receiver, now: U32, buf: seq<OutSeg>, m: Msg)
    requires cfg.Valid() && m in DataMsgs(cfg, r, now, buf)
    ensures m.cmd == CMD_PUSH
    decreases |buf|
  {
    if m in DataMsgs(cfg, r, now, buf[1..]) {
      DataIsPush(cfg, r, now, buf[1..], m);
    }
  }

  lemma AskedIs(cfg: Config, cb: Cb)
    requires cfg.Valid()
    ensures (exists m :: m in FlushMsgs(cfg, cb) && m.cmd == CMD_WASK) <==>
      ProbeTimer(cb.probe, cb.cong.rmtWnd, cb.clock.current).askSend
  {
    var probe := ProbeTimer(cb.probe, cb.cong.rmtWnd, cb.clock.current);
    var ask := Control(cfg.rcvWnd, cb.rcv, CMD_WASK, LastAck(cb.acklist));
    var data := DataMsgs(cfg, cb.rcv, cb.clock.current, Prepared(cfg, cb).buf);
    if probe.askSend {
      assert ProbeMsgs(cfg.rcvWnd, cb.rcv, probe, LastAck(cb.acklist))[0] == ask;
      assert ask in FlushMsgs(cfg, cb);
    }
    forall m | m in data ensures m.cmd == CMD_PUSH {
      DataIsPush(cfg, cb.rcv, cb.clock.current, Prepared(cfg, cb).buf, m);
    }
  }

  lemma {:induction false} ApplyAllKeepsProbe(cfg: Config, cb: Cb, msgs: seq<Msg>)
    requires cfg.Valid()
    ensures var p := ApplyAll(cfg, cb, msgs).probe;
      p.askSend == cb.probe.askSend && p.wait == cb.probe.wait && p.ts == cb.probe.ts
    decreases |msgs|
  {
    if msgs != [] {
      ApplyAllKeepsProbe(cfg, Apply(cfg, cb, msgs[0]), msgs[1..]);
    }
  }

  // What a call does to the probe timer.
  lemma CallProbe(cfg: Config, cb: Cb, c: Call)
    requires cfg.Valid()
    ensures var p, r := cb.probe, Perform(cfg, cb, c).probe;
      if FlushesNow(cb, c) then r == Answered(ProbeTimer(p, cb.cong.rmtWnd, AtFlush(cfg, cb, c).clock.current))
      else r.askSend == p.askSend && r.wait == p.wait && r.ts == p.ts
  {
    if c.CallInput? {
      ApplyAllKeepsProbe(cfg, cb, Read(cfg.conv, cfg.token, c.datagram).msgs);
    }
  }

  // In every run, under any input bytes, the probe timer is off or runs for 7 to 120 seconds.
  lemma {:induction false} ProbeRun(cfg: Config, cb: Cb, calls: seq<Call>)
    requires cfg.Valid() && ProbeInv(cb.probe)
    ensures ProbeInv(PerformAll(cfg, cb, calls).probe)
    decreases |calls|
  {
    if calls != [] {
      CallProbe(cfg, cb, calls[0]);
      ProbeRun(cfg, Perform(cfg, cb, calls[0]), calls[1..]);
    }
  }

  // How many of the calls ask for the window.
  function AskCount(cfg: Config, cb: Cb, calls: seq<Call>): nat
    requires cfg.Valid()
    decreases |calls|
  {
    if calls == [] then 0
    else (if Asks(cfg, cb, calls[0]) then 1 else 0) + AskCount(cfg, Perform(cfg, cb, calls[0]), calls[1..])
  }

  // At the instant `t`, no question is due before `e`: a running timer ends at `due`, and a stopped
  // one has yet to run.
  predicate NotBefore(p: Probe, t: nat, due: nat, e: nat) {
    e <= t + PROBE_INIT && (p.wait > 0 ==> p.ts == Wrap(due) && e <= due < t + HALF)
  }

  // One call: it asks no earlier than `e`, and then not again for seven seconds.
  lemma AskStep(cfg: Config, cb: Cb, c: Call, t: nat, now: nat, due: nat, e: nat) returns (later: nat)
    requires cfg.Valid() && ProbeInv(cb.probe) && NotBefore(cb.probe, t, due, e)
    requires t <= now && cb.clock.current == Wrap(t) && (if c.CallUpdate? then c.now == Wrap(now) else now == t)
    ensures Asks(cfg, cb, c) ==> now >= e
    ensures NotBefore(Perform(cfg, cb, c).probe, now, later, if Asks(cfg, cb, c) then now + PROBE_INIT else e)
  {
    hide Perform, FlushMsgs;
    CallProbe(cfg, cb, c);
    AskedIs(cfg, AtFlush(cfg, cb, c));
    later := due;
    if FlushesNow(cb, c) {
      var p := ProbeTimer(cb.probe, cb.cong.rmtWnd, Wrap(now));
      if now < due && cb.probe.wait > 0 {
        DiffOfTimes(now, due);
      }
      if p.ts != cb.probe.ts || p.wait != cb.probe.wait || p.askSend {
        later := now + p.wait;
        WrapAdd(now, p.wait);
      }
    }
  }

  // With a clock that never goes back, questions are at least seven seconds apart: the n-th comes no
  // earlier than (n - 1) * 7000 after the first one that may come.
  lemma {:induction false} AsksSpaced(cfg: Config, cb: Cb, calls: seq<Call>, t: nat, ts: seq<nat>, due: nat, e: nat)
    requires cfg.Valid() && ProbeInv(cb.probe) && Clocked(cfg, cb, calls, t, ts) && NotBefore(cb.probe, t, due, e)
    ensures var n := AskCount(cfg, cb, calls); n > 0 ==> ts[|ts| - 1] >= e + (n - 1) * PROBE_INIT
    decreases |calls|
  {
    if calls != [] {
      hide Perform, Asks, ProbeInv, NotBefore;
      var c, now := calls[0], ts[0];
      ClockForward(cfg, cb, calls, t, ts);
      var later := AskStep(cfg, cb, c, t, now, due, e);
      ProbeRun(cfg, cb, [c]);
      assert [c][1..] == [] && PerformAll(cfg, cb, [c]) == PerformAll(cfg, Perform(cfg, cb, c), []);
      var earliest := if Asks(cfg, cb, c) then now + PROBE_INIT else e;
      AsksSpaced(cfg, Perform(cfg, cb, c), calls[1..], now, ts[1..], later, earliest);
    }
  }

  // From the start, or after a question at `t`: seven seconds before the next.
  lemma AsksFromStart(cfg: Config, calls: seq<Call>, ts: seq<nat>)
    requires cfg.Valid() && Clocked(cfg, INITIAL, calls, 0, ts)
    ensures var n := AskCount(cfg, INITIAL, calls); n > 0 ==> ts[|ts| - 1] >= n * PROBE_INIT
  {
    AsksSpaced(cfg, INITIAL, calls, 0, ts, 0, PROBE_INIT);
  }

  // Round trips

  // A weighted mean lies between its parts.
  lemma EighthBetween(x: nat, y: nat)
    ensures Min(x, y) <= (7 * x + y) / 8 <= Max(x, y)
  {
    if x <= y {
      assert 8 * x <= 7 * x + y <= 8 * y;
    } else {
      assert 8 * y <= 7 * x + y <= 8 * x;
    }
  }

  lemma QuarterBetween(x: nat, y: nat)
    ensures Min(x, y) <= (3 * x + y) / 4 <= Max(x, y)
  {
    if x <= y {
      assert 4 * x <= 3 * x + y <= 4 * y;
    } else {
      assert 4 * y <= 3 * x + y <= 4 * x;
    }
  }

  // Below 2^28 nothing of the estimate wraps.
  lemma SampleExact(cfg: Config, t: Rtt, rtt: nat)
    requires cfg.Valid() && 0 < t.srtt < 0x1000_0000 && 0 <= t.rttval < 0x1000_0000 && 0 < rtt < 0x1000_0000
    ensures var srtt, rttval := Max(1, (7 * t.srtt + rtt) / 8), (3 * t.rttval + Abs(rtt - t.srtt)) / 4;
      UpdateAck(cfg, t, rtt) ==
        Rtt(rttval, srtt, Min(Max(cfg.MinRto(), srtt + Max(cfg.interval, 4 * rttval)), RTO_MAX))
  {
    hide Wrap;
    var d := Abs(rtt - t.srtt);
    EighthBetween(t.srtt, rtt);
    QuarterBetween(t.rttval, d);
    WrapSmall(7 * t.srtt + rtt);
    WrapSmall(3 * t.rttval);
    var srtt, rttval := Max(1, (7 * t.srtt + rtt) / 8), (3 * t.rttval + d) / 4;
    WrapSmall(4 * rttval);
    WrapSmall(srtt + Max(cfg.interval, 4 * rttval));
  }

  // The first sample of a connection is its round trip, half of it the variation; the timeout is one
  // round trip and at least one flush interval, within its limits.
  lemma FirstSample(cfg: Config, t: Rtt, rtt: nat)
    requires cfg.Valid() && t.srtt == 0 && 0 < rtt < 0x1000_0000
    ensures var r, least := UpdateAck(cfg, t, rtt), if cfg.nodelay == 0 then 100 else 30;
      && r.srtt == rtt && rtt - 1 <= 2 * r.rttval <= rtt
      && r.rto == Min(Max(least, rtt + Max(cfg.interval, 4 * r.rttval)), 60000)
  {
    hide Wrap;
    WrapSmall(4 * (rtt / 2));
    WrapSmall(rtt + Max(cfg.interval, 4 * (rtt / 2)));
  }

  // A sample of zero leaves the round trip to be measured yet.
  lemma ZeroSample(cfg: Config, t: Rtt)
    requires cfg.Valid() && t.srtt == 0
    ensures UpdateAck(cfg, t, 0).srtt == 0 && UpdateAck(cfg, t, 0).rttval == 0
  {
  }

  // The round trips that the acknowledgements of a datagram measure at the instant `now`: the time
  // since the stamp they return, unless that lies ahead.
  function Samples(now: U32, msgs: seq<Msg>): seq<nat>
    decreases |msgs|
  {
    if msgs == [] then []
    else
      var rtt := Diff(now, msgs[0].ts);
      (if msgs[0].cmd == CMD_ACK && rtt >= 0 then [rtt as nat] else []) + Samples(now, msgs[1..])
  }

  function SampledAll(cfg: Config, t: Rtt, samples: seq<nat>): Rtt
    requires cfg.Valid()
    decreases |samples|
  {
    if samples == [] then t else SampledAll(cfg, UpdateAck(cfg, t, samples[0]), samples[1..])
  }

  // A datagram changes the estimate by its samples, in order, and by nothing else.
  lemma {:induction false} ApplyAllSamples(cfg: Config, cb: Cb, msgs: seq<Msg>)
    requires cfg.Valid()
    ensures ApplyAll(cfg, cb, msgs).rtt == SampledAll(cfg, cb.rtt, Samples(cb.clock.current, msgs))
    decreases |msgs|
  {
    if msgs != [] {
      var next := Apply(cfg, cb, msgs[0]);
      var rest := Samples(cb.clock.current, msgs[1..]);
      ApplyAllSamples(cfg, next, msgs[1..]);
      var rtt := Diff(cb.clock.current, msgs[0].ts);
      if msgs[0].cmd == CMD_ACK && rtt >= 0 {
        assert ([rtt as nat] + rest)[1..] == rest;
      } else {
        assert [] + rest == rest;
      }
    }
  }

  lemma {:induction false} InputSamples(cfg: Config, cb: Cb, d: Bytes)
    requires cfg.Valid() && OVERHEAD <= |d| < HALF
    ensures Input(cfg, cb, d).0.rtt
         == SampledAll(cfg, cb.rtt, Samples(cb.clock.current, Read(cfg.conv, cfg.token, d).msgs))
  {
    hide ApplyAll, Read, Samples, SampledAll, Grow, ParseFastack, NewestAck;
    ApplyAllSamples(cfg, cb, Read(cfg.conv, cfg.token, d).msgs);
  }

  predicate AllEqual(samples: seq<nat>, rtt: nat) {
    forall i :: 0 <= i < |samples| ==> samples[i] == rtt
  }

  lemma {:induction false} EqualSamples(cfg: Config, t: Rtt, samples: seq<nat>, rtt: nat)
    requires cfg.Valid() && AllEqual(samples, rtt) && 0 < rtt < 0x1000_0000
    requires t.srtt == rtt && 0 <= t.rttval < 0x1000_0000
    ensures SampledAll(cfg, t, samples).srtt == rtt
    decreases |samples|
  {
    if samples != [] {
      SteadySample(cfg, t, rtt);
      EqualSamples(cfg, UpdateAck(cfg, t, rtt), samples[1..], rtt);
    }
  }

  // The first acknowledgement that a connection receives, stamped `rtt` before now, sets the smoothed
  // round trip to `rtt`; so do several with that stamp in one datagram.
  lemma {:induction false} FirstRoundTrip(cfg: Config, cb: Cb, d: Bytes, rtt: nat)
    requires cfg.Valid() && cb.rtt.srtt == 0 && OVERHEAD <= |d| < HALF && 0 < rtt < 0x1000_0000
    requires var samples := Samples(cb.clock.current, Read(cfg.conv, cfg.token, d).msgs);
      samples != [] && AllEqual(samples, rtt)
    ensures Input(cfg, cb, d).0.rtt.srtt == rtt
  {
    hide Samples, UpdateAck, Read, Input;
    var samples := Samples(cb.clock.current, Read(cfg.conv, cfg.token, d).msgs);
    InputSamples(cfg, cb, d);
    FirstSample(cfg, cb.rtt, rtt);
    EqualSamples(cfg, UpdateAck(cfg, cb.rtt, rtt), samples[1..], rtt);
  }

  // A sample moves the smoothed round trip and its variation towards itself, never past, and the
  // timeout is at least the smoothed round trip and one flush interval, within its limits.
  lemma SampleBetween(cfg: Config, t: Rtt, rtt: nat)
    requires cfg.Valid() && 0 < t.srtt < 0x1000_0000 && 0 <= t.rttval < 0x1000_0000 && 0 < rtt < 0x1000_0000
    ensures var r, d := UpdateAck(cfg, t, rtt), Abs(rtt - t.srtt);
      && Min(t.srtt, rtt) <= r.srtt <= Max(t.srtt, rtt)
      && Min(t.rttval, d) <= r.rttval <= Max(t.rttval, d)
      && cfg.MinRto() <= r.rto <= RTO_MAX && r.rto >= Min(RTO_MAX, r.srtt + cfg.interval)
  {
    hide UpdateAck;
    SampleExact(cfg, t, rtt);
    EighthBetween(t.srtt, rtt);
    QuarterBetween(t.rttval, Abs(rtt - t.srtt));
  }

  // The estimate after `n` equal samples.
  function Sampled(cfg: Config, t: Rtt, rtt: nat, n: nat): Rtt
    requires cfg.Valid() && rtt < HALF
    decreases n
  {
    if n == 0 then t else Sampled(cfg, UpdateAck(cfg, t, rtt), rtt, n - 1)
  }

  lemma SteadySample(cfg: Config, t: Rtt, rtt: nat)
    requires cfg.Valid() && 0 < rtt < 0x1000_0000 && t.srtt == rtt && 0 <= t.rttval < 0x1000_0000
    ensures var r := UpdateAck(cfg, t, rtt);
      r.srtt == rtt && 0 <= r.rttval && (if t.rttval > 0 then r.rttval < t.rttval else r.rttval == 0)
    ensures UpdateAck(cfg, t, rtt).rttval == 0 ==>
      UpdateAck(cfg, t, rtt).rto == Min(Max(cfg.MinRto(), rtt + cfg.interval), RTO_MAX)
  {
  }

  // When round trips are steady, the timeout settles at one round trip and one flush interval.
  lemma {:induction false} SteadyTimeout(cfg: Config, t: Rtt, rtt: nat, n: nat)
    requires cfg.Valid() && 0 < rtt < 0x1000_0000 && t.srtt == rtt && 0 <= t.rttval < 0x1000_0000 && n > t.rttval
    ensures var r := Sampled(cfg, t, rtt, n);
      r.srtt == rtt && r.rttval == 0 && r.rto == Min(Max(cfg.MinRto(), rtt + cfg.interval), RTO_MAX)
    decreases n
  {
    SteadySample(cfg, t, rtt);
    var next := UpdateAck(cfg, t, rtt);
    if n > 1 {
      SteadyTimeout(cfg, next, rtt, n - 1);
    } else {
      assert Sampled(cfg, next, rtt, 0) == next;
    }
  }
}
