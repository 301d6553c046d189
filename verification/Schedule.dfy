/** When flushes happen: what `Check` promises about the next one, and how many there are. */
module Schedule {
  import opened Serial
  import opened ControlBlock

  // What `Check` promises

  // An update at `at` would flush.
  predicate Flushes(c: Clock, at: U32) {
    FlushDue(Tick(c, at))
  }

  // Some resend timer has expired at `at`.
  predicate Expired(buf: seq<OutSeg>, at: U32) {
    exists i :: 0 <= i < |buf| && Diff(at, buf[i].resendts) >= 0
  }

  lemma NotYet(ts: U32, now: U32, d: nat)
    requires d < Diff(ts, now)
    ensures Diff(Add(now, d), ts) == d - Diff(ts, now)
  {
  }

  lemma {:induction false} SoonestAttained(buf: seq<OutSeg>, now: U32, bound: int)
    ensures var t := SoonestTimer(buf, now, bound);
      t == bound || exists i :: 0 <= i < |buf| && Diff(buf[i].resendts, now) == t
  {
    if buf != [] {
      var t := SoonestTimer(buf, now, bound);
      var rest := buf[1..];
      SoonestAttained(rest, now, bound);
      if t == Diff(buf[0].resendts, now) {
        assert Diff(buf[0].resendts, now) == t;
      } else if t != bound {
        var i :| 0 <= i < |rest| && Diff(rest[i].resendts, now) == t;
        assert buf[i + 1] == rest[i];
      }
    }
  }

  // `Check` returns a time in [now, now + interval] before which no update would flush and no
  // resend timer expires.
  lemma CheckIsSafe(cfg: Config, cb: Cb, now: U32, d: nat)
    requires cfg.Valid() && d < Off(now, Check(cfg, cb, now))
    ensures Off(now, Check(cfg, cb, now)) <= cfg.interval
    ensures !Flushes(cb.clock, Add(now, d)) && !Expired(cb.snd.buf, Add(now, d))
  {
    var buf, slap := cb.snd.buf, Diff(now, cb.clock.tsFlush);
    SoonestTimerIs(buf, now, -slap);
    NotYet(cb.clock.tsFlush, now, d);
    forall i | 0 <= i < |buf| ensures Diff(Add(now, d), buf[i].resendts) < 0 {
      NotYet(buf[i].resendts, now, d);
    }
  }

  // It is no earlier than it must be: unless it is a whole interval away, something is due then.
  lemma CheckIsTight(cfg: Config, cb: Cb, now: U32)
    requires cfg.Valid()
    ensures var when := Check(cfg, cb, now);
      Off(now, when) < cfg.interval ==>
        Flushes(cb.clock, when) || exists i :: 0 <= i < |cb.snd.buf| && Diff(cb.snd.buf[i].resendts, when) <= 0
  {
    hide SoonestTimer;
    var buf, slap, when := cb.snd.buf, Diff(now, cb.clock.tsFlush), Check(cfg, cb, now);
    if Off(now, when) < cfg.interval && !Flushes(cb.clock, now) &&
      !(exists i :: 0 <= i < |buf| && Diff(buf[i].resendts, now) <= 0) {
      SoonestTimerIs(buf, now, -slap);
      SoonestAttained(buf, now, -slap);
      if SoonestTimer(buf, now, -slap) != -slap {
        var i :| 0 <= i < |buf| && Diff(buf[i].resendts, now) == SoonestTimer(buf, now, -slap);
        assert Diff(buf[i].resendts, when) == 0;
      }
    }
  }

  // How often updates flush

  // The clock after an update.
  function Updated(interval: nat, c: Clock, now: U32): Clock
    requires interval <= 5000
  {
    var k := Tick(c, now);
    if FlushDue(k) then NextFlush(interval, k) else k
  }

  // Only updates move the clock, and this is how.
  lemma ClockOfUpdate(cfg: Config, cb: Cb, now: U32)
    requires cfg.Valid()
    ensures UpdateState(cfg, cb, now).clock == Updated(cfg.interval, cb.clock, now)
    ensures FlushState(cfg, cb).clock == cb.clock
  {
  }

  // How many of the updates at the instants `ts` flush.
  function FlushCount(interval: nat, c: Clock, ts: seq<nat>): (n: nat)
    requires interval <= 5000
    ensures n <= |ts|
    decreases |ts|
  {
    if ts == [] then 0
    else
      (if Flushes(c, Wrap(ts[0])) then 1 else 0) + FlushCount(interval, Updated(interval, c, Wrap(ts[0])), ts[1..])
  }

  predicate Forward(t: nat, ts: seq<nat>)
    decreases |ts|
  {
    ts != [] ==> t <= ts[0] && Forward(ts[0], ts[1..])
  }

  lemma {:induction false} ForwardLast(t: nat, ts: seq<nat>)
    requires Forward(t, ts) && ts != []
    ensures t <= ts[0] <= ts[|ts| - 1]
    decreases |ts|
  {
    if |ts| > 1 {
      ForwardLast(ts[0], ts[1..]);
    }
  }

  // The instant `r` is the next flush of the clock, last updated at `t`.
  predicate Scheduled(c: Clock, t: nat, r: int) {
    c.updated && c.tsFlush == Wrap(r) && r <= t + 10000
  }

  // The difference of two instants read through 32 bits: the instant meant is never an earlier one.
  lemma Unwrapped(t: nat, r: int)
    requires r <= t + 10000
    ensures var s := Diff(Wrap(t), Wrap(r)); t - s >= r && Wrap(t - s) == Wrap(r)
  {
    var s := Diff(Wrap(t), Wrap(r));
    var p, q := t / MODULUS, r / MODULUS;
    assert t == p * MODULUS + Wrap(t) && r == q * MODULUS + Wrap(r);
    var j := if Wrap(t) - Wrap(r) - s == 0 then p - q else if Wrap(t) - Wrap(r) - s > 0 then p - q + 1 else p - q - 1;
    assert t - s - r == j * MODULUS;
    assert j >= 0;
    WrapMultiple(r, j);
  }

  lemma WrapMultiple(r: int, j: nat)
    ensures Wrap(r + j * MODULUS) == Wrap(r)
  {
    if j > 0 {
      WrapMultiple(r, j - 1);
      var x := r + (j - 1) * MODULUS;
      assert x == x / MODULUS * MODULUS + Wrap(x);
      assert x + MODULUS == (x / MODULUS + 1) * MODULUS + Wrap(x);
    }
  }

  lemma WrapSum(t: int, d: nat)
    requires d < MODULUS
    ensures Add(Wrap(t), d) == Wrap(t + d)
  {
    assert t == t / MODULUS * MODULUS + Wrap(t);
    var x := t + d;
    assert x == x / MODULUS * MODULUS + Wrap(x);
  }

  // One update: a flush happens no earlier than scheduled and puts the next one an interval later.
  lemma UpdateStep(interval: nat, c: Clock, t: nat, r: int, now: nat) returns (later: int)
    requires 0 < interval <= 5000 && Scheduled(c, t, r) && t <= now
    ensures Scheduled(Updated(interval, c, Wrap(now)), now, later)
    ensures if Flushes(c, Wrap(now)) then now >= r && later >= r + interval else later >= r
  {
    var s := Diff(Wrap(now), c.tsFlush);
    Unwrapped(now, r);
    var base := if s >= 10000 || s < -10000 then now else now - s;
    if Flushes(c, Wrap(now)) {
      WrapSum(base, interval);
      WrapSum(now, interval);
      later := if Diff(Wrap(now), Wrap(base + interval)) >= 0 then now + interval else base + interval;
    } else {
      later := base;
    }
  }

  lemma {:induction false} FlushesSpaced(interval: nat, c: Clock, t: nat, r: int, ts: seq<nat>)
    requires 0 < interval <= 5000 && Scheduled(c, t, r) && Forward(t, ts)
    ensures var n := FlushCount(interval, c, ts);
      n > 0 ==> ts != [] && ts[|ts| - 1] >= r + (n - 1) * interval
    decreases |ts|
  {
    if ts != [] {
      var now := ts[0];
      var n := FlushCount(interval, c, ts);
      var later := UpdateStep(interval, c, t, r, now);
      ForwardLast(t, ts);
      FlushesSpaced(interval, Updated(interval, c, Wrap(now)), now, later, ts[1..]);
      if n > 1 {
        assert ts[1..][|ts| - 2] == ts[|ts| - 1];
      }
      if Flushes(c, Wrap(now)) {
        assert (n - 1) * interval == (n - 2) * interval + interval;
      }
    }
  }

  // After its first flush, at `now`, every clock is scheduled, between one and `interval` later.
  lemma FirstFlush(interval: nat, c: Clock, now: nat) returns (r: int)
    requires 0 < interval <= 5000 && Flushes(c, Wrap(now))
    ensures now < r <= now + interval && Scheduled(Updated(interval, c, Wrap(now)), now, r)
  {
    var k := Tick(c, Wrap(now));
    var base := now - Diff(Wrap(now), k.tsFlush);
    WrapDifference(now, k.tsFlush);
    WrapSum(base, interval);
    WrapSum(now, interval);
    r := if Diff(Wrap(now), Wrap(base + interval)) >= 0 then now + interval else base + interval;
  }

  lemma WrapDifference(t: nat, x: U32)
    ensures Wrap(t - Diff(Wrap(t), x)) == x
  {
    var y := t - Diff(Wrap(t), x);
    assert t == t / MODULUS * MODULUS + Wrap(t);
    assert y == y / MODULUS * MODULUS + Wrap(y);
  }

  // With a clock that never goes back, whatever its value and whatever the earlier history, n
  // flushes in the instants a..b take more than n - 2 intervals.
  lemma {:induction false} FlushRate(interval: nat, c: Clock, ts: seq<nat>, a: nat, b: nat)
    requires 0 < interval <= 5000 && Forward(a, ts) && (ts != [] ==> ts[|ts| - 1] <= b)
    ensures var n := FlushCount(interval, c, ts); n >= 2 ==> (n - 2) * interval < b - a
    decreases |ts|
  {
    var n := FlushCount(interval, c, ts);
    if n >= 2 {
      var now := ts[0];
      assert ts[1..] != [] && ts[1..][|ts| - 2] == ts[|ts| - 1];
      if Flushes(c, Wrap(now)) {
        var r := FirstFlush(interval, c, now);
        FlushesSpaced(interval, Updated(interval, c, Wrap(now)), now, r, ts[1..]);
      } else {
        FlushRate(interval, Updated(interval, c, Wrap(now)), ts[1..], now, b);
      }
    }
  }

  // When (b - a) / interval + 1 flushes are the most

  // At the instant `a` a flush is overdue, by less than an interval.
  predicate Late(interval: nat, c: Clock, a: nat) {
    c.updated && 0 < Diff(Wrap(a), c.tsFlush) < interval
  }

  // Updates at instants from `a` to `b`, in order.
  predicate Within(ts: seq<nat>, a: nat, b: nat) {
    Forward(a, ts) && (ts != [] ==> ts[|ts| - 1] <= b)
  }

  // No more than (b - a) / interval + 1 flushes.
  predicate Seldom(interval: nat, n: nat, a: nat, b: nat) {
    n >= 1 ==> (n - 1) * interval <= b - a
  }

  lemma DiffForward(x: int, d: nat)
    requires d < HALF
    ensures Diff(Wrap(x + d), Wrap(x)) == d
  {
    WrapSum(x, d);
  }

  // A first flush that was not overdue at `a` puts the next one an interval after `a`, at least.
  lemma FirstOnTime(interval: nat, c: Clock, a: nat, now: nat) returns (r: int)
    requires 0 < interval <= 5000 && a <= now && Flushes(c, Wrap(now)) && !Late(interval, c, a)
    ensures a + interval <= r && Scheduled(Updated(interval, c, Wrap(now)), now, r)
  {
    var k := Tick(c, Wrap(now));
    var base := now - Diff(Wrap(now), k.tsFlush);
    WrapDifference(now, k.tsFlush);
    WrapSum(base, interval);
    WrapSum(now, interval);
    var s := Diff(Wrap(now), Wrap(base + interval));
    r := if s >= 0 then now + interval else base + interval;
    if base < a {
      DiffForward(base, a - base);
      DiffForward(base + interval, now - (base + interval));
    }
  }

  lemma {:induction false} OnTimeSeldom(interval: nat, c: Clock, ts: seq<nat>, t: nat, a: nat, b: nat)
    requires 0 < interval <= 5000 && a <= t && !Late(interval, c, a)
    requires Forward(t, ts) && (ts != [] ==> ts[|ts| - 1] <= b)
    ensures Seldom(interval, FlushCount(interval, c, ts), a, b)
    decreases |ts|
  {
    if ts != [] {
      var n, now := FlushCount(interval, c, ts), ts[0];
      ForwardLast(t, ts);
      assert |ts| > 1 ==> ts[1..][|ts| - 2] == ts[|ts| - 1];
      if Flushes(c, Wrap(now)) {
        var r := FirstOnTime(interval, c, a, now);
        FlushesSpaced(interval, Updated(interval, c, Wrap(now)), now, r, ts[1..]);
        if n > 1 {
          assert (n - 1) * interval == (n - 2) * interval + interval;
        }
      } else {
        OnTimeSeldom(interval, Updated(interval, c, Wrap(now)), ts[1..], now, a, b);
      }
    }
  }

  // An overdue flush at `a` leaves the next one where it was, less than an interval away.
  lemma {:induction false} LateTwice(interval: nat, c: Clock, a: nat) returns (ts: seq<nat>, b: nat)
    requires 0 < interval <= 5000 && Late(interval, c, a)
    ensures Within(ts, a, b) && FlushCount(interval, c, ts) == 2 && !Seldom(interval, 2, a, b)
  {
    var s := Diff(Wrap(a), c.tsFlush);
    var base := a - s;
    b := base + interval;
    ts := [a, b];
    WrapDifference(a, c.tsFlush);
    WrapSum(base, interval);
    DiffForward(a, b - a);
    var c1 := Updated(interval, c, Wrap(a));
    assert Diff(Wrap(a), Wrap(b)) == -(b - a);
    assert c1 == Clock(Wrap(a), true, Wrap(b));
    assert ts[1..] == [b] && [b][1..] == [];
    assert Flushes(c, Wrap(a)) && Flushes(c1, Wrap(b));
    assert FlushCount(interval, c1, [b]) == 1;
  }

  // The bound (b - a) / interval + 1 holds for all updates from `a` on if and only if no flush is
  // overdue at `a` by less than an interval. In any case `FlushRate` holds.
  lemma {:induction false} SeldomIff(interval: nat, c: Clock, a: nat)
    requires 0 < interval <= 5000
    ensures !Late(interval, c, a) <==>
      forall ts, b :: Within(ts, a, b) ==> Seldom(interval, FlushCount(interval, c, ts), a, b)
  {
    if Late(interval, c, a) {
      var ts, b := LateTwice(interval, c, a);
      assert !Seldom(interval, FlushCount(interval, c, ts), a, b);
    } else {
      forall ts, b | Within(ts, a, b) ensures Seldom(interval, FlushCount(interval, c, ts), a, b) {
        OnTimeSeldom(interval, c, ts, a, a, b);
      }
    }
  }

  // With an interval of 10, after an update at 0, both 19 and 20 flush.
  lemma LateFlush()
    ensures FlushCount(10, Updated(10, INITIAL.clock, 0), [19, 20]) == 2 > (20 - 19) / 10 + 1
  {
    var ts: seq<nat>, last: seq<nat> := [19, 20], [20];
    var c, c1 := Clock(0, true, 10), Clock(19, true, 20);
    assert Updated(10, INITIAL.clock, 0) == c && Updated(10, c, 19) == c1;
    assert Flushes(c, 19) && Flushes(c1, 20);
    assert ts[1..] == last && last[1..] == [];
    assert FlushCount(10, c1, last) == 1;
    assert FlushCount(10, c, ts) == 2;
  }
}
