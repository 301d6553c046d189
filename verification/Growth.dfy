/** The congestion window over whole runs: its bounds, and that 32 bits suffice for its arithmetic. */
module Growth {
  import opened Arithmetic
  import opened Serial
  import opened Wire
  import opened ControlBlock
  import opened Endpoint
  import opened Life
  import opened Timers

  // The largest congestion window that acknowledgements or fast retransmits can set.
  function Widest(cfg: Config): nat {
    Max(0xFFFF, 0x7FFF + cfg.fastresend)
  }

  // The segment size leaves room in 32 bits for a window's worth of bytes.
  predicate Fitting(cfg: Config) {
    cfg.Valid() && cfg.Mss() <= 0xFFFF && (Widest(cfg) + 3) * cfg.Mss() < MODULUS
  }

  // `incr`, the window in bytes, agrees with `cwnd`, the window in segments, to less than one
  // segment either way.
  predicate Balanced(cfg: Config, c: Congestion)
    requires cfg.Valid()
  {
    && c.cwnd <= Widest(cfg) && c.ssthresh >= THRESH_MIN
    && InBalance(cfg.Mss(), c.cwnd, c.incr)
  }

  // The same steps on unbounded integers.

  function IdealCreep(mss: nat, c: Congestion): (int, int)
    requires mss > 0
  {
    var base := Max(c.incr, mss);
    var incr := base + mss * mss / base + mss / 16;
    (if (c.cwnd + 1) * mss <= incr then (incr + mss - 1) / mss else c.cwnd, incr)
  }

  function IdealGrow(mss: nat, c: Congestion): (int, int)
    requires mss > 0
  {
    var (cwnd, incr) := if c.cwnd < c.ssthresh then (c.cwnd + 1, c.incr + mss) else IdealCreep(mss, c);
    if cwnd > c.rmtWnd then (c.rmtWnd, c.rmtWnd * mss) else (cwnd, incr)
  }

  lemma SquareQuotient(mss: nat, base: nat)
    requires 0 < mss <= base
    ensures 0 <= mss * mss / base <= mss
  {
    var q := mss * mss / base;
    assert q * base <= mss * mss;
    if q > mss {
      MulMonotone(mss + 1, q, base);
      MulMonotone(mss, base, mss);
    }
  }

  lemma CeilDiv(x: nat, m: nat)
    requires m > 0
    ensures var q := (x + m - 1) / m; (q - 1) * m < x <= q * m
  {
    var y := x + m - 1;
    QuotientBounds(y, m);
    var q := y / m;
    assert (q + 1) * m == q * m + m && (q - 1) * m == q * m - m;
  }

  // Everything the congestion-avoidance step computes stays below 2^32.
  lemma CreepBounds(mss: nat, cwnd: nat, incr: nat, base: nat, limit: nat)
    requires 0 < mss <= 0xFFFF && base == Max(incr, mss) && incr < (cwnd + 1) * mss
    requires cwnd < limit && (limit + 3) * mss < MODULUS
    ensures base + mss * mss / base + mss / 16 + mss < MODULUS
    ensures (cwnd + 1) * mss < MODULUS && mss * mss < MODULUS
    ensures base <= (cwnd + 1) * mss
  {
    SquareQuotient(mss, base);
    assert (cwnd + 1) * mss == cwnd * mss + mss && (limit + 3) * mss == limit * mss + 3 * mss;
    MulMonotone(cwnd + 1, limit, mss);
    MulMonotone(mss, 0xFFFF, mss);
    MulMonotone(0, cwnd, mss);
  }

  lemma CreepExact(mss: nat, limit: nat, c: Congestion)
    requires 0 < mss <= 0xFFFF && c.incr < (c.cwnd + 1) * mss
    requires c.cwnd < limit && (limit + 3) * mss < MODULUS
    ensures var r := Creep(mss, c); (r.cwnd, r.incr) == IdealCreep(mss, c)
  {
    hide Wrap;
    var base: U32 := Max(c.incr, mss);
    CreepBounds(mss, c.cwnd, c.incr, base, limit);
    var square, next := mss * mss, (c.cwnd + 1) * mss;
    WrapSmall(square);
    WrapSmall(next);
    assert Add(c.cwnd, 1) == c.cwnd + 1 by { MulMonotone(1, mss, c.cwnd + 1); }
    var incr := base + square / base + mss / 16;
    SquareQuotient(mss, base);
    WrapSmall(incr);
    WrapSmall(incr + mss - 1);
  }

  lemma CreepBalanced(mss: nat, c: Congestion)
    requires 0 < mss && (c.cwnd - 1) * mss < c.incr < (c.cwnd + 1) * mss
    ensures var (cwnd, incr) := IdealCreep(mss, c);
      (cwnd - 1) * mss < incr < (cwnd + 1) * mss && cwnd >= c.cwnd && incr >= 0
  {
    var base := Max(c.incr, mss);
    SquareQuotient(mss, base);
    var incr := base + mss * mss / base + mss / 16;
    if (c.cwnd + 1) * mss <= incr {
      CeilDiv(incr, mss);
      var q := (incr + mss - 1) / mss;
      assert (q + 1) * mss == q * mss + mss;
      Cancel(c.cwnd + 1, q, mss);
    }
  }

  predicate InBalance(mss: nat, cwnd: int, incr: int) {
    (cwnd - 1) * mss < incr < (cwnd + 1) * mss
  }

  lemma Exactly(mss: nat, cwnd: nat)
    requires mss > 0
    ensures InBalance(mss, cwnd, cwnd * mss)
  {
  }

  // Growing the window: 32 bits compute the ideal step, and the balance is kept.
  lemma GrowExact(mss: nat, limit: nat, c: Congestion)
    requires 0 < mss <= 0xFFFF && InBalance(mss, c.cwnd, c.incr)
    requires 0xFFFF <= limit && (limit + 3) * mss < MODULUS && c.cwnd < c.rmtWnd
    ensures var r := Grow(mss, c, true);
      && (r.cwnd, r.incr) == IdealGrow(mss, c)
      && InBalance(mss, r.cwnd, r.incr) && c.cwnd <= r.cwnd <= c.rmtWnd && r.ssthresh == c.ssthresh
  {
    MulMonotone(c.rmtWnd, limit, mss);
    MulMonotone(c.cwnd + 1, c.rmtWnd, mss);
    assert (limit + 3) * mss == limit * mss + 3 * mss;
    WrapSmall(c.rmtWnd * mss);
    Exactly(mss, c.rmtWnd);
    if c.cwnd < c.ssthresh {
      assert (c.cwnd + 2) * mss == (c.cwnd + 1) * mss + mss;
      assert (c.cwnd - 1) * mss + mss == c.cwnd * mss;
    } else {
      CreepExact(mss, limit, c);
      CreepBalanced(mss, c);
    }
  }

  lemma ReactExact(cfg: Config, c: Congestion, inFlight: U32, change: bool, lost: bool, w: U32)
    requires Fitting(cfg) && Balanced(cfg, c) && inFlight <= 0xFFFF && (change ==> cfg.fastresend > 0)
    ensures var r := React(cfg, c, inFlight, change, lost, w);
      && Balanced(cfg, r) && r.cwnd >= 1
      && (change && !lost ==> r.cwnd == Max(THRESH_MIN, inFlight / 2) + cfg.fastresend && r.incr == r.cwnd * cfg.Mss())
  {
    var mss := cfg.Mss();
    var cwnd := Max(THRESH_MIN, inFlight / 2) + cfg.fastresend;
    if change {
      MulMonotone(cwnd, Widest(cfg), mss);
      assert (Widest(cfg) + 3) * mss == Widest(cfg) * mss + 3 * mss;
      MulMonotone(1, mss, cwnd);
      WrapSmall(cwnd * mss);
      Exactly(mss, cwnd);
    }
    Exactly(mss, 1);
  }

  // Whole runs

  // No segment has been overtaken more than `k` times.
  predicate Overtaken(cb: Cb, k: nat) {
    forall x :: x in cb.snd.buf ==> x.fastack <= k
  }

  lemma OvertakenStep(cfg: Config, cb: Cb, c: Call, k: nat)
    requires Inv(cfg, cb) && Overtaken(cb, k)
    ensures Overtaken(Perform(cfg, cb, c), k + 1)
  {
    forall y | y in Perform(cfg, cb, c).snd.buf ensures y.fastack <= k + 1 {
      if y.sn in Numbers(cb.snd.buf) {
        var x :| x in cb.snd.buf && x.sn == y.sn;
        SegmentStep(cfg, cb, c, x, y);
        AgedFastack(cfg, cb, c, x);
      } else {
        FirstSend(cfg, cb, c, y);
      }
    }
  }

  lemma {:induction false} NoFast(cfg: Config, now: U32, buf: seq<OutSeg>)
    requires cfg.Valid() && cfg.fastresend == 0 && forall i :: 0 <= i < |buf| ==> buf[i].fastack < 0xffff_ffff
    ensures CountReason(cfg, now, buf, Fast) == 0
  {
    if buf != [] {
      NoFast(cfg, now, buf[1..]);
    }
  }

  lemma FlushBalanced(cfg: Config, cb: Cb, k: nat)
    requires Inv(cfg, cb) && Fitting(cfg) && Balanced(cfg, cb.cong) && Overtaken(cb, k) && k < 0xffff_ffff
    ensures var c := FlushState(cfg, cb).cong;
      Balanced(cfg, c) && (cb.clock.updated || cb.cong.cwnd >= 1 ==> c.cwnd >= 1)
  {
    if cb.clock.updated {
      var p := Prepared(cfg, cb);
      PreparedInv(cfg, cb);
      if cfg.fastresend == 0 {
        forall i | 0 <= i < |p.buf| ensures p.buf[i].fastack < 0xffff_ffff {
          if i < |cb.snd.buf| {
            assert p.buf[i] == cb.snd.buf[i];
          }
        }
        NoFast(cfg, cb.clock.current, p.buf);
      }
      ReactExact(cfg, cb.cong, InFlight(p), CountReason(cfg, cb.clock.current, p.buf, Fast) > 0,
                 CountReason(cfg, cb.clock.current, p.buf, Timeout) > 0, EffectiveWnd(cfg, cb.cong));
    }
  }

  lemma {:induction false} ApplyAllCong(cfg: Config, cb: Cb, msgs: seq<Msg>)
    requires cfg.Valid()
    ensures var c := ApplyAll(cfg, cb, msgs).cong; c == cb.cong.(rmtWnd := c.rmtWnd)
    decreases |msgs|
  {
    if msgs != [] {
      ApplyAllCong(cfg, Apply(cfg, cb, msgs[0]), msgs[1..]);
    }
  }

  lemma InputBalanced(cfg: Config, cb: Cb, d: Bytes)
    requires Fitting(cfg) && Balanced(cfg, cb.cong)
    ensures var c := Input(cfg, cb, d).0.cong; Balanced(cfg, c) && c.cwnd >= cb.cong.cwnd
  {
    var reading := Read(cfg.conv, cfg.token, d);
    ApplyAllCong(cfg, cb, reading.msgs);
    var c := ApplyAll(cfg, cb, reading.msgs).cong;
    if c.cwnd < c.rmtWnd {
      GrowExact(cfg.Mss(), Widest(cfg), c);
    }
  }

  lemma CallBalanced(cfg: Config, cb: Cb, c: Call, k: nat)
    requires Inv(cfg, cb) && Fitting(cfg) && Balanced(cfg, cb.cong) && Overtaken(cb, k) && k < 0xffff_ffff
    ensures var r := Perform(cfg, cb, c).cong; Balanced(cfg, r) && (cb.cong.cwnd >= 1 ==> r.cwnd >= 1)
  {
    match c
    case CallInput(d) => InputBalanced(cfg, cb, d);
    case CallFlush => FlushBalanced(cfg, cb, k);
    case CallUpdate(now) => FlushBalanced(cfg, Ticked(cfg, cb, now), k);
    case CallSend(m) =>
    case CallRecv(len) =>
  }

  lemma {:induction false} RunBalanced(cfg: Config, cb: Cb, calls: seq<Call>, k: nat)
    requires Inv(cfg, cb) && Fitting(cfg) && Balanced(cfg, cb.cong) && Overtaken(cb, k) && k + |calls| <= 0xffff_ffff
    ensures var r := PerformAll(cfg, cb, calls);
      && Inv(cfg, r) && Overtaken(r, k + |calls|)
      && Balanced(cfg, r.cong) && (cb.cong.cwnd >= 1 ==> r.cong.cwnd >= 1)
    decreases |calls|
  {
    if calls != [] {
      CallBalanced(cfg, cb, calls[0], k);
      OvertakenStep(cfg, cb, calls[0], k);
      PerformInv(cfg, cb, calls[0]);
      RunBalanced(cfg, Perform(cfg, cb, calls[0]), calls[1..], k + 1);
    }
  }

  // In every run of acknowledgements, losses and fast retransmits, under any input bytes: the slow
  // start threshold is at least 2, the window in bytes agrees with the window in segments, and from
  // the first flush on at least one segment may be sent.
  lemma {:induction false} CongestionRun(cfg: Config, before: seq<Call>, after: seq<Call>)
    requires Fitting(cfg) && |before| + |after| < 0xffff_ffff
    ensures var first := PerformAll(cfg, INITIAL, before);
      var last := PerformAll(cfg, FlushState(cfg, first), after);
      && Balanced(cfg, first.cong) && Balanced(cfg, last.cong)
      && (first.clock.updated ==> last.cong.cwnd >= 1)
  {
    var first := PerformAll(cfg, INITIAL, before);
    RunBalanced(cfg, INITIAL, before, 0);
    FlushBalanced(cfg, first, |before|);
    OvertakenStep(cfg, first, CallFlush, |before|);
    FlushInv(cfg, first);
    RunBalanced(cfg, FlushState(cfg, first), after, |before| + 1);
  }

  // The default segment size, with any fast-retransmit threshold up to three million, fits.
  lemma DefaultFits(cfg: Config)
    requires cfg.Valid() && cfg.mtu == 1400 && cfg.fastresend <= 3_000_000
    ensures Fitting(cfg)
  {
  }
}
