/** The windows at work: what a flush gives a number and sends, what loss does to the congestion
    window, and what acknowledgements add to it. */
module Windows {
  import opened Arithmetic
  import opened Serial
  import opened Wire
  import opened ControlBlock
  import opened Endpoint
  import opened Life
  import opened Timers
  import opened Retransmission
  import opened Growth

  // The greatest number of segments that the own window, the peer's window and the congestion window,
  // unless it is switched off, all allow.
  predicate Allowed(cfg: Config, c: Congestion, w: nat) {
    && w <= cfg.sndWnd && w <= c.rmtWnd && (cfg.nocwnd || w <= c.cwnd)
    && (w == cfg.sndWnd || w == c.rmtWnd || (!cfg.nocwnd && w == c.cwnd))
  }

  lemma AllowedIs(cfg: Config, c: Congestion, w: nat)
    requires Allowed(cfg, c, w)
    ensures EffectiveWnd(cfg, c) == w
  {
  }

  // The first fragments of the queue get the next numbers, in order, until the window is full or the
  // queue is empty.
  lemma FlushAdmits(cfg: Config, cb: Cb, w: nat)
    requires Inv(cfg, cb) && cb.clock.updated && Allowed(cfg, cb.cong, w)
    ensures var s, r := cb.snd, FlushState(cfg, cb).snd;
      var k := |s.queue| - |r.queue|;
      && 0 <= k <= |s.queue| && r.queue == s.queue[k..] && r.una == s.una && r.nxt == Wrap(s.nxt + k)
      && |r.buf| == |s.buf| + k
      && (forall i :: 0 <= i < |s.buf| ==> r.buf[i].sn == s.buf[i].sn && r.buf[i].frag == s.buf[i].frag)
      && (forall i :: |s.buf| <= i < |r.buf| ==>
            r.buf[i].sn == Wrap(s.nxt + (i - |s.buf|)) && r.buf[i].frag == s.queue[i - |s.buf|])
      && (k > 0 ==> InFlight(r) <= w) && (r.queue != [] ==> InFlight(r) >= w)
  {
    hide Decide, Inv, AnyDead, CountReason;
    AllowedIs(cfg, cb.cong, w);
    InFlightSmall(cfg, cb);
    AdmitInFlight(cb.snd, w, cb.clock.current, cb.rtt.rto);
    var k := Room(cb.snd, w);
    var buf := FlushState(cfg, cb).snd.buf;
    WrapAdvance(cb.snd.nxt, k);
    forall i | |cb.snd.buf| <= i < |buf| ensures buf[i].sn == Wrap(cb.snd.nxt + (i - |cb.snd.buf|)) {
      WrapAdvance(cb.snd.nxt, i - |cb.snd.buf|);
    }
  }

  lemma InFlightSmall(cfg: Config, cb: Cb)
    requires Inv(cfg, cb)
    ensures cfg.Valid() && InFlight(cb.snd) <= 0xFFFF
  {
  }

  lemma {:induction false} WrapAdvance(x: U32, k: nat)
    ensures Advance(x, k) == Wrap(x + k)
    decreases k
  {
    if k > 0 {
      WrapAdvance(x, k - 1);
      WrapNext(x + k - 1);
    }
  }

  lemma WrapNext(y: nat)
    ensures Add(Wrap(y), 1) == Wrap(y + 1)
  {
  }

  // Loss

  // A timer of a segment in flight has run out.
  predicate TimedOut(cb: Cb, x: OutSeg) {
    x.xmit > 0 && Diff(cb.clock.current, x.resendts) >= 0
  }

  // Enough later segments have been acknowledged, and the segment may still be sent early.
  predicate SkippedOften(cfg: Config, cb: Cb, x: OutSeg) {
    && x.xmit > 0 && Diff(cb.clock.current, x.resendts) < 0
    && cfg.fastresend > 0 && x.fastack >= cfg.fastresend && (cfg.fastlimit <= 0 || Signed(x.xmit) <= cfg.fastlimit)
  }

  predicate AnyTimedOut(cb: Cb) {
    exists x :: x in cb.snd.buf && TimedOut(cb, x)
  }

  predicate AnySkipped(cfg: Config, cb: Cb) {
    exists x :: x in cb.snd.buf && SkippedOften(cfg, cb, x)
  }

  // Without fast retransmission the count of overtakings must stay below the largest 32-bit number.
  predicate CountsFit(cfg: Config, cb: Cb) {
    cfg.fastresend > 0 || forall x :: x in cb.snd.buf ==> x.fastack < 0xFFFF_FFFF
  }

  lemma {:induction false} CountPositive(cfg: Config, now: U32, buf: seq<OutSeg>, why: Reason)
    requires cfg.Valid()
    ensures CountReason(cfg, now, buf, why) > 0 <==> exists x :: x in buf && Decide(cfg, now, x) == why
  {
    if buf != [] {
      CountPositive(cfg, now, buf[1..], why);
      assert buf == [buf[0]] + buf[1..];
    }
  }

  // Segments that were only just numbered count as neither.
  lemma {:induction false} PreparedReasons(cfg: Config, cb: Cb)
    requires cfg.Valid() && CountsFit(cfg, cb)
    ensures var buf, now := Prepared(cfg, cb).buf, cb.clock.current;
      && (CountReason(cfg, now, buf, Timeout) > 0 <==> AnyTimedOut(cb))
      && (CountReason(cfg, now, buf, Fast) > 0 <==> AnySkipped(cfg, cb))
  {
    var buf, now := Prepared(cfg, cb).buf, cb.clock.current;
    CountPositive(cfg, now, buf, Timeout);
    CountPositive(cfg, now, buf, Fast);
    forall x | x in buf ensures x in cb.snd.buf || Decide(cfg, now, x) == First {
      var i :| 0 <= i < |buf| && buf[i] == x;
      if i < |cb.snd.buf| {
        assert cb.snd.buf[i] in cb.snd.buf;
      }
    }
    forall x | x in cb.snd.buf ensures x in buf {
      var i :| 0 <= i < |cb.snd.buf| && cb.snd.buf[i] == x;
      assert buf[i] == x;
    }
  }

  // What a flush does to the congestion window, a timeout taking precedence over a fast
  // retransmission: one segment and half of the window allowed after a timeout; half of what is in
  // flight, and as much more as acknowledgements overtook, after a fast retransmission.
  lemma {:induction false} FlushReacts(cfg: Config, cb: Cb, w: nat)
    requires Inv(cfg, cb) && Fitting(cfg) && Balanced(cfg, cb.cong) && CountsFit(cfg, cb)
    requires cb.clock.updated && Allowed(cfg, cb.cong, w)
    ensures var c, after, mss := cb.cong, FlushState(cfg, cb), cfg.Mss();
      var r, half := after.cong, InFlight(after.snd) / 2;
      && (AnyTimedOut(cb) ==> r == c.(cwnd := 1, incr := mss, ssthresh := Max(2, w / 2)))
      && (!AnyTimedOut(cb) && AnySkipped(cfg, cb) ==>
            && r.ssthresh == Max(2, half) && r.cwnd == r.ssthresh + cfg.fastresend
            && r.incr == r.cwnd * mss && r.rmtWnd == c.rmtWnd)
      && (!AnyTimedOut(cb) && !AnySkipped(cfg, cb) ==> r == if c.cwnd == 0 then c.(cwnd := 1, incr := mss) else c)
  {
    hide Decide, AnyTimedOut, AnySkipped, Balanced, Fitting, SendInv, RecvInv, SizeInv, Prepared;
    AllowedIs(cfg, cb.cong, w);
    PreparedReasons(cfg, cb);
    PreparedFlight(cfg, cb);
    SkippedNeedsLimit(cfg, cb);
    ReactExact(cfg, cb.cong, InFlight(Prepared(cfg, cb)), AnySkipped(cfg, cb), AnyTimedOut(cb), w);
  }

  lemma SkippedNeedsLimit(cfg: Config, cb: Cb)
    ensures AnySkipped(cfg, cb) ==> cfg.fastresend > 0
  {
  }

  lemma PreparedFlight(cfg: Config, cb: Cb)
    requires Inv(cfg, cb) && cb.clock.updated
    ensures InFlight(FlushState(cfg, cb).snd) == InFlight(Prepared(cfg, cb)) <= 0xFFFF
  {
    PreparedInv(cfg, cb);
  }

  // Counters

  function TimedOutIn(cb: Cb, buf: seq<OutSeg>): set<U32> {
    set x | x in buf && TimedOut(cb, x) :: x.sn
  }

  function TimedOutNumbers(cb: Cb): set<U32> {
    TimedOutIn(cb, cb.snd.buf)
  }

  lemma {:induction false} CountTimeouts(cfg: Config, base: U32, w: nat, cb: Cb, buf: seq<OutSeg>)
    requires cfg.Valid() && OutWindow(base, w, buf)
    ensures CountReason(cfg, cb.clock.current, buf, Timeout) == |TimedOutIn(cb, buf)|
    decreases |buf|
  {
    if buf != [] {
      hide Decide, TimedOut, OutWindow, TimedOutIn;
      TailWindow(base, w, buf);
      CountTimeouts(cfg, base, w, cb, buf[1..]);
      TimedOutIs(cfg, cb, buf[0]);
      TimedOutMore(base, cb, buf[0], buf[1..]);
      assert buf == [buf[0]] + buf[1..];
    } else {
      assert TimedOutIn(cb, buf) == {};
    }
  }

  lemma TimedOutMore(base: U32, cb: Cb, x: OutSeg, rest: seq<OutSeg>)
    requires forall y :: y in rest ==> Off(base, x.sn) < Off(base, y.sn)
    ensures |TimedOutIn(cb, [x] + rest)| == |TimedOutIn(cb, rest)| + if TimedOut(cb, x) then 1 else 0
  {
    hide TimedOut;
    assert x.sn !in TimedOutIn(cb, rest);
    assert TimedOutIn(cb, [x] + rest) == (if TimedOut(cb, x) then {x.sn} else {}) + TimedOutIn(cb, rest);
  }

  lemma TimedOutIs(cfg: Config, cb: Cb, x: OutSeg)
    requires cfg.Valid()
    ensures TimedOut(cb, x) <==> Decide(cfg, cb.clock.current, x) == Timeout
  {
  }

  lemma {:induction false} PreparedTimeouts(cfg: Config, cb: Cb)
    requires Inv(cfg, cb)
    ensures CountReason(cfg, cb.clock.current, Prepared(cfg, cb).buf, Timeout) == |TimedOutNumbers(cb)|
  {
    var p := Prepared(cfg, cb);
    PreparedInv(cfg, cb);
    CountTimeouts(cfg, p.una, InFlight(p), cb, p.buf);
    forall x | x in p.buf && TimedOut(cb, x) ensures x in cb.snd.buf {
      var i :| 0 <= i < |p.buf| && p.buf[i] == x;
      assert i < |cb.snd.buf| ==> cb.snd.buf[i] in cb.snd.buf;
    }
    forall x | x in cb.snd.buf ensures x in p.buf {
      var i :| 0 <= i < |cb.snd.buf| && cb.snd.buf[i] == x;
      assert p.buf[i] == x;
    }
    assert TimedOutNumbers(cb) == TimedOutIn(cb, p.buf);
  }

  // A flush counts the timeouts, and takes the link for dead when it sends a segment for the last time
  // that is allowed.
  lemma {:induction false} FlushCounts(cfg: Config, cb: Cb)
    requires Inv(cfg, cb) && cb.clock.updated
    ensures var r := FlushState(cfg, cb);
      && r.xmit == Wrap(cb.xmit + |TimedOutNumbers(cb)|)
      && (r.dead <==> cb.dead || exists y :: y in r.snd.buf && y.xmit >= cfg.deadLink
                                             && SaysNumber(FlushMsgs(cfg, cb), y.sn))
  {
    hide Inv, Decide, Touch, SaysNumber, Prepared, FlushMsgs;
    InFlightSmall(cfg, cb);
    PreparedTimeouts(cfg, cb);
    var r, buf, now := FlushState(cfg, cb), Prepared(cfg, cb).buf, cb.clock.current;
    forall x | x in buf ensures SaysNumber(FlushMsgs(cfg, cb), x.sn) <==> Decide(cfg, now, x) != Keep {
      SaysIff(cfg, cb, x);
    }
    if i :| 0 <= i < |buf| && Exhausted(cfg, now, cb.rtt.rto, buf[i]) {
      TouchKeepsNumber(cfg, now, cb.rtt.rto, buf[i]);
      assert buf[i] in buf && r.snd.buf[i] in r.snd.buf;
    }
    if y :| y in r.snd.buf && y.xmit >= cfg.deadLink && SaysNumber(FlushMsgs(cfg, cb), y.sn) {
      var i :| 0 <= i < |buf| && Touch(cfg, now, cb.rtt.rto, buf[i]) == y;
      TouchKeepsNumber(cfg, now, cb.rtt.rto, buf[i]);
      assert buf[i] in buf && Exhausted(cfg, now, cb.rtt.rto, buf[i]);
    }
  }

  lemma TouchKeepsNumber(cfg: Config, now: U32, rto: U32, x: OutSeg)
    requires cfg.Valid()
    ensures Touch(cfg, now, rto, x).sn == x.sn
  {
  }

  // Acknowledgements

  // A datagram that acknowledges something new opens the congestion window below the peer's window: by
  // a segment below the threshold, by the ideal step above it. Any other leaves it.
  lemma {:induction false} InputGrows(cfg: Config, cb: Cb, d: Bytes)
    requires Inv(cfg, cb) && Fitting(cfg) && Balanced(cfg, cb.cong)
    ensures var (after, code) := Input(cfg, cb, d);
      var r, c, mss := after.cong, cb.cong.(rmtWnd := after.cong.rmtWnd), cfg.Mss();
      var grows := code == 0 && after.snd.una != cb.snd.una && c.cwnd < c.rmtWnd;
      && (!grows ==> r == c)
      && (grows && c.cwnd < c.ssthresh ==> r == c.(cwnd := r.cwnd, incr := r.incr)
                                           && r.cwnd == c.cwnd + 1 && r.incr == c.incr + mss)
      && (grows && c.cwnd >= c.ssthresh ==> r == c.(cwnd := r.cwnd, incr := r.incr)
                                            && (r.cwnd, r.incr) == IdealGrow(mss, c))
  {
    hide Grow, IdealGrow, InBalance, ApplyAll, Fitting, NewestAck, ParseFastack, SendInv, RecvInv, SizeInv, Off, Read;
    InputUna(cfg, cb, d);
    var reading := Read(cfg.conv, cfg.token, d);
    ApplyAllCong(cfg, cb, reading.msgs);
    var c := ApplyAll(cfg, cb, reading.msgs).cong;
    GrowsHere(cfg, c);
  }

  lemma InputUna(cfg: Config, cb: Cb, d: Bytes)
    requires Inv(cfg, cb)
    ensures var una := Input(cfg, cb, d).0.snd.una; Diff(una, cb.snd.una) > 0 <==> una != cb.snd.una
  {
    InputInv(cfg, cb, d);
  }

  lemma {:induction false} GrowsHere(cfg: Config, c: Congestion)
    requires Fitting(cfg) && Balanced(cfg, c)
    ensures Grow(cfg.Mss(), c, false) == c && (c.cwnd >= c.rmtWnd ==> Grow(cfg.Mss(), c, true) == c)
    ensures c.cwnd < c.rmtWnd ==>
      var r := Grow(cfg.Mss(), c, true);
      && r == c.(cwnd := r.cwnd, incr := r.incr) && (r.cwnd, r.incr) == IdealGrow(cfg.Mss(), c)
      && (c.cwnd < c.ssthresh ==> r.cwnd == c.cwnd + 1 && r.incr == c.incr + cfg.Mss())
  {
    if c.cwnd < c.rmtWnd {
      GrowExact(cfg.Mss(), Widest(cfg), c);
    }
  }
}
