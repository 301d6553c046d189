/** What the acknowledgements of a datagram do to the send buffer: what leaves it, and what counts as
    overtaken. */
module Acknowledging {
  import opened Serial
  import opened Wire
  import opened ControlBlock
  import opened Endpoint
  import opened Life
  import Progress

  // What leaves

  // Seen from the first unacknowledged number `una`, a header acknowledges `sn`: it names it, or its
  // cumulative acknowledgement lies ahead and beyond it.
  predicate Acknowledges(una: U32, m: Msg, sn: U32) {
    (m.cmd == CMD_ACK && m.sn == sn) || Off(una, sn) < Off(una, m.una) < HALF
  }

  lemma {:induction false} DropsCovered(base: U32, w: nat, buf: seq<OutSeg>, una: U32)
    requires OutWindow(base, w, buf) && w <= HALF && Off(base, una) < HALF
    ensures forall y :: y in DropBefore(buf, una) ==> Off(base, y.sn) >= Off(base, una)
  {
    if buf != [] {
      DiffInWindow(base, una, buf[0].sn);
      if Off(base, buf[0].sn) < Off(base, una) {
        DropsCovered(base, w, buf[1..], una);
      }
    }
  }

  // A header takes out what it acknowledges.
  lemma HeaderRemoves(cfg: Config, s: Sender, m: Msg, x: OutSeg)
    requires SenderInv(cfg, s) && x in s.buf && Acknowledges(s.una, m, x.sn)
    ensures x !in ApplySnd(s, m).buf
  {
    if m.cmd == CMD_ACK && m.sn == x.sn {
      Progress.ApplyGone(cfg, s, m, x.sn);
    } else {
      DropsCovered(s.una, InFlight(s), s.buf, m.una);
      if m.cmd == CMD_ACK {
        WithoutMembers(DropBefore(s.buf, m.una), m.sn, x);
      }
    }
  }

  lemma OffAhead(base: U32, later: U32, w: nat, x: U32)
    requires Off(later, x) < w && Off(base, later) + w <= HALF
    ensures Off(base, later) <= Off(base, x)
  {
  }

  // A segment that is still there is no further from the window start, as seen from a number ahead.
  lemma SeenFromLater(cfg: Config, s: Sender, t: Sender, m: Msg, x: OutSeg)
    requires SenderInv(cfg, s) && SenderInv(cfg, t) && Advances(s, t) && x in t.buf
    requires Acknowledges(s.una, m, x.sn)
    ensures Acknowledges(t.una, m, x.sn)
  {
    OffAhead(s.una, t.una, InFlight(t), x.sn);
    OffRebase(s.una, t.una, x.sn);
    if Off(s.una, x.sn) < Off(s.una, m.una) < HALF {
      OffRebase(s.una, t.una, m.una);
    }
  }

  lemma {:induction false} HeadersRemove(cfg: Config, cb: Cb, msgs: seq<Msg>, m: Msg, x: OutSeg)
    requires Inv(cfg, cb) && x in cb.snd.buf && m in msgs && Acknowledges(cb.snd.una, m, x.sn)
    ensures x !in ApplyAll(cfg, cb, msgs).snd.buf
    decreases |msgs|
  {
    hide Acknowledges, SenderInv, Advances, ApplySnd;
    var next := Apply(cfg, cb, msgs[0]);
    SenderPart(cfg, cb);
    ApplyInv(cfg, cb, msgs[0]);
    SenderPart(cfg, next);
    if x !in next.snd.buf {
      if x in ApplyAll(cfg, cb, msgs).snd.buf {
        ApplyAllKeepsSegments(cfg, next, msgs[1..], x);
      }
    } else if m == msgs[0] {
      HeaderRemoves(cfg, cb.snd, m, x);
    } else {
      ApplySndInv(cfg, cb.snd, msgs[0]);
      SeenFromLater(cfg, cb.snd, next.snd, m, x);
      HeadersRemove(cfg, next, msgs[1..], m, x);
    }
  }

  lemma SenderPart(cfg: Config, cb: Cb)
    requires Inv(cfg, cb)
    ensures cfg.Valid() && SenderInv(cfg, cb.snd)
  {
  }

  // Whatever else is in a datagram, and whether or not it ends in an error: a number that one of its
  // headers acknowledges is not in the send buffer after it.
  lemma {:induction false} AcknowledgedLeaves(cfg: Config, cb: Cb, d: Bytes, m: Msg, sn: U32)
    requires Inv(cfg, cb) && |d| < HALF && m in Read(cfg.conv, cfg.token, d).msgs
    requires Acknowledges(cb.snd.una, m, sn)
    ensures sn !in Numbers(Input(cfg, cb, d).0.snd.buf)
  {
    hide Inv, Acknowledges, ApplyAll, Input, Read;
    LongEnough(cfg, d);
    SenderPart(cfg, cb);
    if sn in Numbers(Input(cfg, cb, d).0.snd.buf) {
      var y :| y in Input(cfg, cb, d).0.snd.buf && y.sn == sn;
      var x := InputSource(cfg, cb, d, y);
      ApplyAllKeepsSegments(cfg, cb, Read(cfg.conv, cfg.token, d).msgs, x);
      HeadersRemove(cfg, cb, Read(cfg.conv, cfg.token, d).msgs, m, x);
    }
  }

  lemma LongEnough(cfg: Config, d: Bytes)
    requires |d| < HALF && Read(cfg.conv, cfg.token, d).msgs != []
    ensures Signed(Wrap(|d|)) >= OVERHEAD
  {
    WrapSmall(|d|);
    if |d| < OVERHEAD {
      Progress.ReadShort(cfg.conv, cfg.token, d);
    }
  }

  lemma InputSource(cfg: Config, cb: Cb, d: Bytes, y: OutSeg) returns (x: OutSeg)
    requires Inv(cfg, cb) && Signed(Wrap(|d|)) >= OVERHEAD && y in Input(cfg, cb, d).0.snd.buf
    ensures cfg.Valid() && x in ApplyAll(cfg, cb, Read(cfg.conv, cfg.token, d).msgs).snd.buf && x.sn == y.sn
  {
    x := BeforeFastack(cfg, cb, d, y);
  }

  // What is overtaken

  predicate AcksIn(msgs: seq<Msg>, sn: U32) {
    exists m :: m in msgs && m.cmd == CMD_ACK && m.sn == sn
  }

  // All numbers that the datagram acknowledges by name lie less than half of the number space ahead
  // of `base`.
  predicate Near(base: U32, msgs: seq<Msg>) {
    forall m :: m in msgs && m.cmd == CMD_ACK ==> Off(base, m.sn) < HALF
  }

  // The newest acknowledgement is the greatest one, and one of those there are.
  lemma {:induction false} NewestIs(base: U32, n: Newest, msgs: seq<Msg>)
    requires Near(base, msgs) && (n.Newest? ==> Off(base, n.sn) < HALF)
    ensures var r := NewestAck(n, msgs);
      && (r.NoAck? <==> n.NoAck? && forall m :: m in msgs ==> m.cmd != CMD_ACK)
      && (r.Newest? ==> r == n || AcksIn(msgs, r.sn))
      && (n.Newest? ==> Off(base, n.sn) <= Off(base, r.sn))
      && (forall m :: m in msgs && m.cmd == CMD_ACK ==> Off(base, m.sn) <= Off(base, r.sn))
    decreases |msgs|
  {
    if msgs != [] {
      var next := NewerAck(n, msgs[0]);
      assert msgs == [msgs[0]] + msgs[1..];
      if msgs[0].cmd == CMD_ACK && n.Newest? {
        DiffInWindow(base, msgs[0].sn, n.sn);
      }
      NewestIs(base, next, msgs[1..]);
      var r := NewestAck(next, msgs[1..]);
      if r.Newest? && r != n && r == next {
        assert msgs[0].cmd == CMD_ACK && msgs[0].sn == r.sn;
      }
    }
  }

  // The datagram overtakes `sn`: it is read to its end, it acknowledges a later number by name, and
  // none that has not been sent.
  predicate Passes(cfg: Config, cb: Cb, base: U32, d: Bytes, sn: U32) {
    var reading := Read(cfg.conv, cfg.token, d);
    && reading.code == 0
    && (exists m :: m in reading.msgs && m.cmd == CMD_ACK && Off(base, sn) < Off(base, m.sn))
    && (forall m :: m in reading.msgs && m.cmd == CMD_ACK ==> Off(base, m.sn) < Off(base, cb.snd.nxt))
  }

  // A segment that stays in the send buffer is counted as overtaken once by a datagram that passes it,
  // however many acknowledgements pass it, and not at all by any other. Nothing else of it changes.
  lemma {:induction false} OvertakenOnce(cfg: Config, cb: Cb, base: U32, d: Bytes, x: OutSeg, y: OutSeg)
    requires Inv(cfg, cb) && OVERHEAD <= |d| < HALF && x in cb.snd.buf
    requires y in Input(cfg, cb, d).0.snd.buf && y.sn == x.sn
    requires Near(base, Read(cfg.conv, cfg.token, d).msgs) && Off(base, cb.snd.una) + InFlight(cb.snd) < HALF
    ensures y == if Passes(cfg, cb, base, d, x.sn) then x.(fastack := Add(x.fastack, 1)) else x
  {
    hide Inv, ApplyAll, Input, Read, Passes, Overtakes;
    WrapSmall(|d|);
    InputStep(cfg, cb, d, x, y);
    var z := InputSource(cfg, cb, d, y);
    SameSource(cfg, cb, d, x, z);
    PassesIs(cfg, cb, base, d, x);
  }

  lemma SameSource(cfg: Config, cb: Cb, d: Bytes, x: OutSeg, z: OutSeg)
    requires Inv(cfg, cb) && x in cb.snd.buf && z.sn == x.sn
    requires z in ApplyAll(cfg, cb, Read(cfg.conv, cfg.token, d).msgs).snd.buf
    ensures z == x
  {
    ApplyAllKeepsSegments(cfg, cb, Read(cfg.conv, cfg.token, d).msgs, z);
    SameNumber(cb.snd.una, InFlight(cb.snd), cb.snd.buf, x, z);
  }

  lemma {:induction false} PassesIs(cfg: Config, cb: Cb, base: U32, d: Bytes, x: OutSeg)
    requires Inv(cfg, cb) && OVERHEAD <= |d| < HALF
    requires x in ApplyAll(cfg, cb, Read(cfg.conv, cfg.token, d).msgs).snd.buf
    requires Near(base, Read(cfg.conv, cfg.token, d).msgs) && Off(base, cb.snd.una) + InFlight(cb.snd) < HALF
    ensures Overtakes(cfg, cb, CallInput(d), x) <==> Passes(cfg, cb, base, d, x.sn)
  {
    hide ApplyAll, Read, NewestAck, SizeInv, RecvInv;
    WrapSmall(|d|);
    var reading := Read(cfg.conv, cfg.token, d);
    var s := ApplyAll(cfg, cb, reading.msgs).snd;
    ApplyAllInv(cfg, cb, reading.msgs);
    NewestIs(base, NoAck, reading.msgs);
    var newest := NewestAck(NoAck, reading.msgs);
    InWindowFrom(base, cb.snd, s, x);
    if newest.Newest? {
      AheadIs(base, s, x.sn, newest.sn);
    }
  }

  // Where a segment and the ends of its window lie, as seen from further back.
  lemma InWindowFrom(base: U32, before: Sender, s: Sender, x: OutSeg)
    requires Off(base, before.una) + InFlight(before) < HALF && Advances(before, s)
    requires OutWindow(s.una, InFlight(s), s.buf) && x in s.buf
    ensures Off(base, s.una) <= Off(base, x.sn) < Off(base, s.nxt) < HALF && s.nxt == before.nxt
  {
    assert Off(base, s.una) == Off(base, before.una) + Off(before.una, s.una);
    assert Off(base, x.sn) == Off(base, s.una) + Off(s.una, x.sn);
  }

  lemma AheadIs(base: U32, s: Sender, sn: U32, newest: U32)
    requires Off(base, s.una) <= Off(base, sn) < Off(base, s.nxt) < HALF && Off(base, newest) < HALF
    ensures Outstanding(s, newest) && Off(s.una, sn) < Off(s.una, newest)
       <==> Off(base, sn) < Off(base, newest) < Off(base, s.nxt)
  {
    DiffInWindow(base, newest, s.una);
    DiffInWindow(base, newest, s.nxt);
    OffRebase(base, s.una, sn);
    if Off(base, newest) >= Off(base, s.una) {
      OffRebase(base, s.una, newest);
    }
  }
}
