/** What the timers and retransmission counters guarantee over whole lives of a segment, and when
    flushes happen. */
module Timers {
  import opened Arithmetic
  import opened Serial
  import opened Wire
  import opened ControlBlock
  import opened Endpoint
  import opened Life

  // The segment `x` after a run of calls, as long as it stays in the send buffer.
  function AgedAll(cfg: Config, cb: Cb, calls: seq<Call>, x: OutSeg): OutSeg
    requires cfg.Valid()
    decreases |calls|
  {
    if calls == [] then x else AgedAll(cfg, Perform(cfg, cb, calls[0]), calls[1..], Aged(cfg, cb, calls[0], x))
  }

  // The number `sn` is in the send buffer now and after every call.
  predicate Survives(cfg: Config, cb: Cb, calls: seq<Call>, sn: U32)
    requires cfg.Valid()
    decreases |calls|
  {
    sn in Numbers(cb.snd.buf) && (calls != [] ==> Survives(cfg, Perform(cfg, cb, calls[0]), calls[1..], sn))
  }

  // The lives below are those of real segments.
  lemma {:induction false} SegmentLife(cfg: Config, cb: Cb, calls: seq<Call>, x: OutSeg)
    requires Inv(cfg, cb) && x in cb.snd.buf && Survives(cfg, cb, calls, x.sn)
    ensures AgedAll(cfg, cb, calls, x) in PerformAll(cfg, cb, calls).snd.buf
    ensures AgedAll(cfg, cb, calls, x).sn == x.sn
    decreases |calls|
  {
    if calls != [] {
      var next := Perform(cfg, cb, calls[0]);
      PerformInv(cfg, cb, calls[0]);
      var y :| y in next.snd.buf && y.sn == x.sn;
      SegmentStep(cfg, cb, calls[0], x, y);
      SegmentLife(cfg, next, calls[1..], y);
    }
  }

  // How often the segment is sent for the given reason, and how often it is overtaken.
  function Times(cfg: Config, cb: Cb, calls: seq<Call>, x: OutSeg, why: Reason): nat
    requires cfg.Valid()
    decreases |calls|
  {
    if calls == [] then 0
    else
      (if Why(cfg, cb, calls[0], x) == why then 1 else 0)
      + Times(cfg, Perform(cfg, cb, calls[0]), calls[1..], Aged(cfg, cb, calls[0], x), why)
  }

  function Overtakings(cfg: Config, cb: Cb, calls: seq<Call>, x: OutSeg): nat
    requires cfg.Valid()
    decreases |calls|
  {
    if calls == [] then 0
    else
      (if Overtakes(cfg, cb, calls[0], x) then 1 else 0)
      + Overtakings(cfg, Perform(cfg, cb, calls[0]), calls[1..], Aged(cfg, cb, calls[0], x))
  }

  // Fast retransmission

  // One call: a fast retransmission takes up a full round of overtakings.
  lemma AgedFastack(cfg: Config, cb: Cb, c: Call, x: OutSeg)
    requires cfg.Valid()
    ensures var y := Aged(cfg, cb, c, x);
      var overtaken: int := if Overtakes(cfg, cb, c, x) then 1 else 0;
      var y0: int := if Why(cfg, cb, c, x) == Fast then cfg.Resent() else 0;
      y.fastack + y0 <= x.fastack + overtaken
  {
  }

  lemma MulStep(n: nat, r: nat)
    ensures (1 + n) * r == r + n * r
  {
  }

  // Each fast retransmission is paid for by `Resent` datagrams whose newest acknowledgement lay
  // beyond the segment.
  lemma {:induction false} FastNeedsOvertaking(cfg: Config, cb: Cb, calls: seq<Call>, x: OutSeg)
    requires cfg.Valid()
    ensures Times(cfg, cb, calls, x, Fast) * cfg.Resent() <= x.fastack + Overtakings(cfg, cb, calls, x)
    decreases |calls|
  {
    if calls != [] {
      var next, y := Perform(cfg, cb, calls[0]), Aged(cfg, cb, calls[0], x);
      FastNeedsOvertaking(cfg, next, calls[1..], y);
      AgedFastack(cfg, cb, calls[0], x);
      MulStep(Times(cfg, next, calls[1..], y, Fast), cfg.Resent());
    }
  }

  // After a fast retransmission the count of overtakings starts again at zero, so between two of
  // them lie at least `Resent` overtaking datagrams.
  lemma FastSpacing(cfg: Config, cb: Cb, first: Call, later: seq<Call>, x: OutSeg)
    requires cfg.Valid() && Why(cfg, cb, first, x) == Fast
    ensures var next, y := Perform(cfg, cb, first), Aged(cfg, cb, first, x);
      Times(cfg, next, later, y, Fast) * cfg.Resent() <= Overtakings(cfg, next, later, y)
  {
    FastNeedsOvertaking(cfg, Perform(cfg, cb, first), later, Aged(cfg, cb, first, x));
  }

  // With a positive limit, a segment that has been sent once is fast-retransmitted at most
  // `fastlimit` times, while its transmission counter has not wrapped.
  lemma {:induction false} FastLimited(cfg: Config, cb: Cb, calls: seq<Call>, x: OutSeg)
    requires cfg.Valid() && cfg.fastlimit > 0 && 1 <= x.xmit && x.xmit + |calls| < HALF
    ensures Times(cfg, cb, calls, x, Fast) <= Max(0, cfg.fastlimit + 1 - x.xmit)
    decreases |calls|
  {
    if calls != [] {
      var y := Aged(cfg, cb, calls[0], x);
      assert x.xmit <= y.xmit <= x.xmit + 1;
      FastLimited(cfg, Perform(cfg, cb, calls[0]), calls[1..], y);
    }
  }

  // Backoff

  function Pow2(k: nat): (p: nat)
    ensures p >= 1
  {
    if k == 0 then 1 else 2 * Pow2(k - 1)
  }

  // `ts[i]` is the reading of an unwrapped clock, which never goes back, after call `i`: an update
  // sets it, and everything else happens at the time of the last update.
  predicate Clocked(cfg: Config, cb: Cb, calls: seq<Call>, t: nat, ts: seq<nat>)
    requires cfg.Valid()
    decreases |calls|
  {
    && |ts| == |calls| && cb.clock.current == Wrap(t)
    && (calls != [] ==>
          && t <= ts[0]
          && (if calls[0].CallUpdate? then calls[0].now == Wrap(ts[0]) else ts[0] == t)
          && Clocked(cfg, Perform(cfg, cb, calls[0]), calls[1..], ts[0], ts[1..]))
  }

  // The resend timer is set to an instant at least one timeout after `sent`, which is not after
  // the present `t`, and less than 2^31 ahead.
  predicate Armed(x: OutSeg, sent: nat, t: nat, due: nat) {
    x.xmit >= 1 && x.resendts == Wrap(due) && sent <= t && sent + x.rto <= due && due - t < HALF
  }

  lemma DiffOfTimes(t: nat, due: nat)
    requires t < due && due - t < HALF
    ensures Diff(Wrap(t), Wrap(due)) < 0
  {
    var q := due / MODULUS;
    assert due == q * MODULUS + Wrap(due);
    assert t == t / MODULUS * MODULUS + Wrap(t);
  }

  lemma WrapAdd(t: nat, d: U32)
    ensures Add(Wrap(t), d) == Wrap(t + d) && Wrap(Wrap(t) + d) == Wrap(t + d)
  {
    var q := t / MODULUS;
    assert t == q * MODULUS + Wrap(t);
    var r := t + d;
    assert r == r / MODULUS * MODULUS + Wrap(r);
  }

  lemma {:induction false} ClockForward(cfg: Config, cb: Cb, calls: seq<Call>, t: nat, ts: seq<nat>)
    requires cfg.Valid() && Clocked(cfg, cb, calls, t, ts)
    ensures ts != [] ==> t <= ts[0] <= ts[|ts| - 1]
    decreases |calls|
  {
    if |ts| > 1 {
      ClockForward(cfg, Perform(cfg, cb, calls[0]), calls[1..], ts[0], ts[1..]);
      assert ts[1..][|ts| - 2] == ts[|ts| - 1];
    }
  }

  // One call sends a segment at most once more, and only a timeout changes its timeout value.
  lemma AgedTimer(cfg: Config, cb: Cb, c: Call, x: OutSeg)
    requires Inv(cfg, cb) && cfg.nodelay == 0 && 1 <= x.xmit < HALF
    ensures var y := Aged(cfg, cb, c, x);
      x.xmit <= y.xmit <= x.xmit + 1 && (Why(cfg, cb, c, x) != Timeout ==> y.rto == x.rto)
  {
  }

  // What one call does to an armed timer when no timeout happens.
  lemma ArmedStep(cfg: Config, cb: Cb, c: Call, x: OutSeg, sent: nat, t: nat, due: nat, now: nat) returns (later: nat)
    requires Inv(cfg, cb) && x.xmit < HALF && x.rto < HALF && Armed(x, sent, t, due)
    requires t <= now && cb.clock.current == Wrap(t) && (if c.CallUpdate? then c.now == Wrap(now) else now == t)
    requires Why(cfg, cb, c, x) != Timeout
    ensures Aged(cfg, cb, c, x).rto == x.rto && Armed(Aged(cfg, cb, c, x), sent, now, later)
  {
    if Why(cfg, cb, c, x) == Fast {
      later := now + x.rto;
      WrapAdd(now, x.rto);
    } else {
      later := due;
    }
  }

  // A timeout waits for the timer and at least doubles it.
  lemma TimeoutStep(cfg: Config, cb: Cb, c: Call, x: OutSeg, sent: nat, t: nat, due: nat, now: nat)
    requires Inv(cfg, cb) && cfg.nodelay == 0 && x.xmit < HALF && x.rto < HALF && Armed(x, sent, t, due)
    requires t <= now && cb.clock.current == Wrap(t) && (if c.CallUpdate? then c.now == Wrap(now) else now == t)
    requires Why(cfg, cb, c, x) == Timeout
    ensures now >= sent + x.rto
    ensures var y := Aged(cfg, cb, c, x);
      && 2 * x.rto <= y.rto <= x.rto + Max(x.rto, RTO_MAX)
      && (y.rto < HALF ==> Armed(y, now, now, now + y.rto))
  {
    if now < due {
      DiffOfTimes(now, due);
    }
    var y := Aged(cfg, cb, c, x);
    assert y.rto == x.rto + Max(x.rto, cb.rtt.rto);
    WrapAdd(now, y.rto);
  }

  // The earliest instant of the n-th timeout: the timer doubles each time, until 32 bits no longer
  // hold it.
  function Earliest(sent: nat, rto: nat, n: nat): int {
    sent + Min(rto * (Pow2(n) - 1), HALF - Max(rto, RTO_MAX))
  }

  lemma EarliestStep(sent: nat, rto: nat, now: nat, doubled: nat, n: nat)
    requires now >= sent + rto && 2 * rto <= doubled <= rto + Max(rto, RTO_MAX)
    ensures Earliest(now, doubled, n) >= Earliest(sent, rto, n + 1)
    ensures doubled >= HALF || n == 0 ==> now >= Earliest(sent, rto, n + 1)
  {
    var p: nat := Pow2(n) - 1;
    MulMonotone(2 * rto, doubled, p);
    assert 2 * rto * p + rto == rto * (2 * p + 1);
  }

  // Backoff with nodelay 0: the n-th timeout of a segment comes no earlier than its first sending
  // plus rto * (2^n - 1), while that stays below 2^31 by a minute. Fast retransmissions in between
  // do not bring that forward.
  lemma BackoffStarts(cfg: Config, cb: Cb, x: OutSeg, sent: nat, t: nat, due: nat)
    requires Inv(cfg, cb) && Armed(x, sent, t, due)
    ensures cfg.Valid() && x.xmit >= 1
  {
  }

  lemma {:induction false} BackoffLife(cfg: Config, cb: Cb, calls: seq<Call>, x: OutSeg, sent: nat, t: nat, due: nat,
      ts: seq<nat>)
    requires Inv(cfg, cb) && cfg.nodelay == 0 && x.xmit + |calls| < HALF && x.rto < HALF
    requires Clocked(cfg, cb, calls, t, ts) && Armed(x, sent, t, due)
    ensures var n := Times(cfg, cb, calls, x, Timeout);
      n > 0 ==> ts[|ts| - 1] >= Earliest(sent, x.rto, n)
    decreases |calls|
  {
    hide Perform, Inv, Armed, Aged, Why, Earliest;
    BackoffStarts(cfg, cb, x, sent, t, due);
    var n := Times(cfg, cb, calls, x, Timeout);
    if n > 0 {
      var c, now := calls[0], ts[0];
      var next, y := Perform(cfg, cb, c), Aged(cfg, cb, c, x);
      PerformInv(cfg, cb, c);
      ClockForward(cfg, cb, calls, t, ts);
      AgedTimer(cfg, cb, c, x);
      if Why(cfg, cb, c, x) == Timeout {
        TimeoutStep(cfg, cb, c, x, sent, t, due, now);
        EarliestStep(sent, x.rto, now, y.rto, n - 1);
        if n > 1 && y.rto < HALF {
          BackoffLife(cfg, next, calls[1..], y, now, now, now + y.rto, ts[1..]);
        }
      } else {
        var later := ArmedStep(cfg, cb, c, x, sent, t, due, now);
        BackoffLife(cfg, next, calls[1..], y, sent, now, later, ts[1..]);
      }
    }
  }

  // Where lives begin: only a flush puts numbers into the send buffer, and it sends what it puts
  // there at once, with a fresh counter and a timer of the current timeout value.
  lemma FirstSend(cfg: Config, cb: Cb, c: Call, y: OutSeg)
    requires Inv(cfg, cb) && y in Perform(cfg, cb, c).snd.buf && y.sn !in Numbers(cb.snd.buf)
    ensures c.CallFlush? || c.CallUpdate?
    ensures var now := if c.CallUpdate? then c.now else cb.clock.current;
      && y.xmit == 1 && y.fastack == 0 && y.rto == cb.rtt.rto
      && y.resendts == Wrap(now + y.rto + FirstDelay(cfg, y.rto))
  {
    if c.CallInput? {
      InputNumbers(cfg, cb, c.datagram);
    } else if c.CallFlush? {
      AdmittedSent(cfg, cb, y);
    } else if c.CallUpdate? && FlushDue(Tick(cb.clock, c.now)) {
      AdmittedSent(cfg, Ticked(cfg, cb, c.now), y);
    }
  }

  lemma AdmittedSent(cfg: Config, cb: Cb, y: OutSeg)
    requires Inv(cfg, cb) && y in FlushState(cfg, cb).snd.buf && y.sn !in Numbers(cb.snd.buf)
    ensures y.xmit == 1 && y.fastack == 0 && y.rto == cb.rtt.rto
    ensures y.resendts == Wrap(cb.clock.current + y.rto + FirstDelay(cfg, y.rto))
  {
    if cb.clock.updated {
      var p := Prepared(cfg, cb);
      var i :| 0 <= i < |p.buf| && Touch(cfg, cb.clock.current, cb.rtt.rto, p.buf[i]) == y;
      forall j | 0 <= j < |cb.snd.buf| ensures p.buf[j].sn in Numbers(cb.snd.buf) {
        assert cb.snd.buf[j] in cb.snd.buf;
      }
      assert p.buf[i] == Admitted(cb.snd, i - |cb.snd.buf|, cb.clock.current, cb.rtt.rto);
    }
  }

  // A segment that a flush at time `sent` puts into the send buffer, and the calls that follow it.
  predicate Born(cfg: Config, cb: Cb, c: Call, y: OutSeg, sent: nat) {
    && Inv(cfg, cb) && y in Perform(cfg, cb, c).snd.buf && y.sn !in Numbers(cb.snd.buf)
    && Wrap(sent) == if c.CallUpdate? then c.now else cb.clock.current
  }

  lemma FirstArmed(y: OutSeg, sent: nat, delay: U32)
    requires y.xmit == 1 && y.rto <= RTO_MAX && delay <= RTO_MAX && y.resendts == Wrap(Wrap(sent) + y.rto + delay)
    ensures Armed(y, sent, sent, sent + y.rto + delay)
  {
    WrapAdd(sent, y.rto + delay);
  }

  lemma BornArmed(cfg: Config, cb: Cb, c: Call, y: OutSeg, sent: nat)
    requires Born(cfg, cb, c, y, sent)
    ensures y.xmit == 1 && y.rto <= RTO_MAX && Armed(y, sent, sent, sent + y.rto + FirstDelay(cfg, y.rto))
  {
    FirstSend(cfg, cb, c, y);
    FirstArmed(y, sent, FirstDelay(cfg, y.rto));
  }

  lemma BornFacts(cfg: Config, cb: Cb, c: Call, y: OutSeg, sent: nat)
    requires Born(cfg, cb, c, y, sent)
    ensures Inv(cfg, cb) && cfg.Valid()
  {
  }

  // Backoff over the whole life of a segment.
  lemma {:induction false} Backoff(cfg: Config, cb: Cb, c: Call, calls: seq<Call>, y: OutSeg, sent: nat, ts: seq<nat>)
    requires Born(cfg, cb, c, y, sent) && cfg.nodelay == 0 && |calls| < HALF - 1
    requires Clocked(cfg, Perform(cfg, cb, c), calls, sent, ts)
    ensures var n := Times(cfg, Perform(cfg, cb, c), calls, y, Timeout);
      n > 0 ==> ts[|ts| - 1] >= sent + Min(y.rto * (Pow2(n) - 1), HALF - RTO_MAX)
  {
    hide Inv, Perform, Born, Armed, Clocked, Times, Pow2;
    BornFacts(cfg, cb, c, y, sent);
    var next := Perform(cfg, cb, c);
    PerformInv(cfg, cb, c);
    BornArmed(cfg, cb, c, y, sent);
    BackoffLife(cfg, next, calls, y, sent, sent, sent + y.rto + FirstDelay(cfg, y.rto), ts);
  }

  // Fast retransmission over the whole life of a segment: at most `fastlimit` times, and no more
  // often than every `Resent` overtaking datagrams.
  lemma FastRetransmit(cfg: Config, cb: Cb, c: Call, calls: seq<Call>, y: OutSeg, sent: nat)
    requires Born(cfg, cb, c, y, sent)
    ensures var next := Perform(cfg, cb, c);
      && Times(cfg, next, calls, y, Fast) * cfg.Resent() <= Overtakings(cfg, next, calls, y)
      && (cfg.fastlimit > 0 && |calls| < HALF - 1 ==> Times(cfg, next, calls, y, Fast) <= cfg.fastlimit)
  {
    FirstSend(cfg, cb, c, y);
    FastNeedsOvertaking(cfg, Perform(cfg, cb, c), calls, y);
    if cfg.fastlimit > 0 && |calls| < HALF - 1 {
      FastLimited(cfg, Perform(cfg, cb, c), calls, y);
    }
  }
}
