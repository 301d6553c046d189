/** Runs of one endpoint under any calls and any input bytes, and the life of a segment in its
    send buffer: retransmission limits and backoff. */
module Life {
  import opened Serial
  import opened Wire
  import opened ControlBlock
  import opened Endpoint

  // One call of the interface, with any arguments; `CallInput` takes bytes from anyone.
  datatype Call =
    | CallSend(msg: Bytes)
    | CallRecv(len: int)
    | CallFlush
    | CallUpdate(now: U32)
    | CallInput(datagram: Bytes)

  function Perform(cfg: Config, cb: Cb, c: Call): Cb
    requires cfg.Valid()
  {
    match c
    case CallSend(m) => Send(cfg, cb, m).0
    case CallRecv(len) => Recv(cfg, cb, len).cb
    case CallFlush => FlushState(cfg, cb)
    case CallUpdate(now) => UpdateState(cfg, cb, now)
    case CallInput(d) => Input(cfg, cb, d).0
  }

  function PerformAll(cfg: Config, cb: Cb, calls: seq<Call>): Cb
    requires cfg.Valid()
    decreases |calls|
  {
    if calls == [] then cb else PerformAll(cfg, Perform(cfg, cb, calls[0]), calls[1..])
  }

  // The call flushes, and the control block with which it does.
  predicate FlushesNow(cb: Cb, c: Call) {
    (c.CallFlush? && cb.clock.updated) || (c.CallUpdate? && FlushDue(Tick(cb.clock, c.now)))
  }

  function AtFlush(cfg: Config, cb: Cb, c: Call): Cb
    requires cfg.Valid()
  {
    if c.CallUpdate? then Ticked(cfg, cb, c.now) else cb
  }

  // The datagrams that a call hands to the output callback, and what the peer reads in them.
  function Output(cfg: Config, cb: Cb, c: Call): seq<Bytes>
    requires cfg.Valid()
  {
    if FlushesNow(cb, c) then FlushOut(cfg, AtFlush(cfg, cb, c)) else []
  }

  function Spoken(cfg: Config, cb: Cb, c: Call): seq<Msg>
    requires cfg.Valid()
  {
    ReadAll(cfg.conv, cfg.token, Output(cfg, cb, c))
  }

  lemma SpokenIs(cfg: Config, cb: Cb, c: Call)
    requires Inv(cfg, cb)
    ensures Spoken(cfg, cb, c) == if FlushesNow(cb, c) then FlushMsgs(cfg, AtFlush(cfg, cb, c)) else []
  {
    if FlushesNow(cb, c) {
      FlushReadBack(cfg, AtFlush(cfg, cb, c));
    }
  }

  lemma PerformInv(cfg: Config, cb: Cb, c: Call)
    requires Inv(cfg, cb)
    ensures Inv(cfg, Perform(cfg, cb, c))
  {
    match c
    case CallSend(m) => SendKeepsInv(cfg, cb, m);
    case CallRecv(len) => RecvKeepsInv(cfg, cb, len);
    case CallFlush => FlushInv(cfg, cb);
    case CallUpdate(now) => UpdateInv(cfg, cb, now);
    case CallInput(d) => InputInv(cfg, cb, d);
  }

  // In every run, whatever is called and whatever bytes arrive, and across wrap-around: the send
  // buffer is strictly increasing inside [una, nxt), no more than the send window is in flight,
  // the receive buffer is strictly increasing inside the receive window, and neither it nor the
  // receive queue holds more than the receive window.
  lemma {:induction false} AnyRun(cfg: Config, cb: Cb, calls: seq<Call>)
    requires Inv(cfg, cb)
    ensures Inv(cfg, PerformAll(cfg, cb, calls))
    decreases |calls|
  {
    if calls != [] {
      PerformInv(cfg, cb, calls[0]);
      AnyRun(cfg, Perform(cfg, cb, calls[0]), calls[1..]);
    }
  }

  lemma AnyRunFromStart(cfg: Config, calls: seq<Call>)
    requires cfg.Valid()
    ensures var cb := PerformAll(cfg, INITIAL, calls);
      && OutWindow(cb.snd.una, InFlight(cb.snd), cb.snd.buf) && |cb.snd.buf| <= InFlight(cb.snd) <= cfg.sndWnd
      && InWindow(cb.rcv.nxt, cfg.rcvWnd, cb.rcv.buf) && |cb.rcv.buf| <= cfg.rcvWnd && |cb.rcv.queue| <= cfg.rcvWnd
  {
    AnyRun(cfg, INITIAL, calls);
    var cb := PerformAll(cfg, INITIAL, calls);
    OutWindowSize(cb.snd.una, InFlight(cb.snd), cb.snd.buf);
    InWindowSize(cb.rcv.nxt, cfg.rcvWnd, cb.rcv.buf);
  }

  // Conservation

  // How many fragments a call accepts for sending.
  function Accepts(cfg: Config, c: Call): nat
    requires cfg.Valid()
  {
    if c.CallSend? && FragCount(|c.msg|, cfg.Mss()) < WND_RCV then FragCount(|c.msg|, cfg.Mss()) else 0
  }

  function Numbers(buf: seq<OutSeg>): set<U32> {
    set x | x in buf :: x.sn
  }

  // A header acknowledges the number, by name or by a cumulative acknowledgement beyond it.
  predicate Names(m: Msg, sn: U32) {
    (m.cmd == CMD_ACK && m.sn == sn) || Diff(m.una, sn) > 0
  }

  // The call is the input of a datagram with a header that acknowledges the number.
  predicate NamedBy(cfg: Config, c: Call, sn: U32) {
    c.CallInput? && exists m :: m in Read(cfg.conv, cfg.token, c.datagram).msgs && Names(m, sn)
  }

  // The segments in flight that a call acknowledges: its datagram names them, and their numbers
  // leave the send buffer.
  function AcknowledgedBy(cfg: Config, cb: Cb, c: Call): set<U32>
    requires cfg.Valid()
  {
    set sn | sn in Numbers(cb.snd.buf) && sn !in Numbers(Perform(cfg, cb, c).snd.buf) && NamedBy(cfg, c, sn)
  }

  function Acknowledges(cfg: Config, cb: Cb, c: Call): nat
    requires cfg.Valid()
  {
    |AcknowledgedBy(cfg, cb, c)|
  }

  function Accepted(cfg: Config, calls: seq<Call>): nat
    requires cfg.Valid()
  {
    if calls == [] then 0 else Accepts(cfg, calls[0]) + Accepted(cfg, calls[1..])
  }

  function Acknowledged(cfg: Config, cb: Cb, calls: seq<Call>): nat
    requires cfg.Valid()
    decreases |calls|
  {
    if calls == [] then 0
    else Acknowledges(cfg, cb, calls[0]) + Acknowledged(cfg, Perform(cfg, cb, calls[0]), calls[1..])
  }

  // What ikcp_waitsnd reports.
  function WaitSnd(s: Sender): nat {
    |s.buf| + |s.queue|
  }

  lemma {:induction false} NumbersCount(base: U32, w: nat, buf: seq<OutSeg>)
    requires OutWindow(base, w, buf)
    ensures |Numbers(buf)| == |buf|
  {
    if buf != [] {
      var front, last := buf[..|buf| - 1], buf[|buf| - 1];
      NumbersCount(base, w, front);
      assert Numbers(buf) == Numbers(front) + {last.sn} by {
        assert buf == front + [last];
      }
      assert last.sn !in Numbers(front) by {
        forall x | x in front ensures x.sn != last.sn {
          var i :| 0 <= i < |front| && front[i] == x;
          assert Off(base, buf[i].sn) < Off(base, buf[|buf| - 1].sn);
        }
      }
    }
  }

  lemma SubsetDifference<T>(a: set<T>, b: set<T>)
    requires b <= a
    ensures |a - b| == |a| - |b|
  {
    assert a == b + (a - b);
  }

  lemma InputNumbers(cfg: Config, cb: Cb, d: Bytes)
    requires cfg.Valid()
    ensures Numbers(Input(cfg, cb, d).0.snd.buf) <= Numbers(cb.snd.buf)
  {
    forall y | y in Input(cfg, cb, d).0.snd.buf ensures y.sn in Numbers(cb.snd.buf) {
      if Signed(Wrap(|d|)) >= OVERHEAD {
        var x := BeforeFastack(cfg, cb, d, y);
        ApplyAllKeepsSegments(cfg, cb, Read(cfg.conv, cfg.token, d).msgs, x);
      }
    }
  }

  // What one header takes out of the send buffer it names.
  lemma ApplyNames(s: Sender, m: Msg, x: OutSeg)
    requires x in s.buf && x !in ApplySnd(s, m).buf
    ensures Names(m, x.sn)
  {
    var acked := Shrink(ParseUna(s, m.una));
    if x !in acked.buf {
      DropBeforeKeeps(s.buf, m.una, x);
    } else {
      WithoutMembers(acked.buf, m.sn, x);
    }
  }

  lemma {:induction false} ApplyAllNames(cfg: Config, cb: Cb, msgs: seq<Msg>, x: OutSeg)
    requires cfg.Valid() && x in cb.snd.buf && x !in ApplyAll(cfg, cb, msgs).snd.buf
    ensures exists m :: m in msgs && Names(m, x.sn)
    decreases |msgs|
  {
    var next := Apply(cfg, cb, msgs[0]);
    if x in next.snd.buf {
      ApplyAllNames(cfg, next, msgs[1..], x);
      var m :| m in msgs[1..] && Names(m, x.sn);
      assert m in msgs;
    } else {
      ApplyNames(cb.snd, msgs[0], x);
      assert msgs[0] in msgs;
    }
  }

  // Counting overtakings changes no number.
  lemma AfterFastack(cfg: Config, cb: Cb, d: Bytes, x: OutSeg)
    requires cfg.Valid() && Signed(Wrap(|d|)) >= OVERHEAD
    requires x in ApplyAll(cfg, cb, Read(cfg.conv, cfg.token, d).msgs).snd.buf
    ensures x.sn in Numbers(Input(cfg, cb, d).0.snd.buf)
  {
    var buf, r := ApplyAll(cfg, cb, Read(cfg.conv, cfg.token, d).msgs).snd.buf, Input(cfg, cb, d).0.snd.buf;
    var i :| 0 <= i < |buf| && buf[i] == x;
    assert r[i].sn == x.sn && r[i] in r;
  }

  // Every number that leaves the send buffer on a call was acknowledged by the datagram of that call.
  lemma GoneIsNamed(cfg: Config, cb: Cb, c: Call, sn: U32)
    requires Inv(cfg, cb) && sn in Numbers(cb.snd.buf) && sn !in Numbers(Perform(cfg, cb, c).snd.buf)
    ensures NamedBy(cfg, c, sn)
  {
    match c
    case CallInput(d) =>
      var x :| x in cb.snd.buf && x.sn == sn;
      var msgs := Read(cfg.conv, cfg.token, d).msgs;
      if Signed(Wrap(|d|)) >= OVERHEAD && x in ApplyAll(cfg, cb, msgs).snd.buf {
        AfterFastack(cfg, cb, d, x);
      } else {
        ApplyAllNames(cfg, cb, msgs, x);
      }
    case CallFlush => FlushNumbers(cfg, cb);
    case CallUpdate(now) => FlushNumbers(cfg, Ticked(cfg, cb, now));
    case CallSend(m) =>
    case CallRecv(len) =>
  }

  lemma AcknowledgedAreGone(cfg: Config, cb: Cb, c: Call)
    requires Inv(cfg, cb)
    ensures AcknowledgedBy(cfg, cb, c) == Numbers(cb.snd.buf) - Numbers(Perform(cfg, cb, c).snd.buf)
  {
    forall sn | sn in Numbers(cb.snd.buf) - Numbers(Perform(cfg, cb, c).snd.buf) ensures NamedBy(cfg, c, sn) {
      GoneIsNamed(cfg, cb, c, sn);
    }
  }

  // A flush keeps every segment in flight and takes none from nowhere.
  lemma FlushNumbers(cfg: Config, cb: Cb)
    requires cfg.Valid()
    ensures var r := FlushState(cfg, cb);
      Numbers(cb.snd.buf) <= Numbers(r.snd.buf) && WaitSnd(r.snd) == WaitSnd(cb.snd)
  {
    if cb.clock.updated {
      var p := Prepared(cfg, cb);
      var r := FlushState(cfg, cb).snd.buf;
      forall x | x in cb.snd.buf ensures x.sn in Numbers(r) {
        var i :| 0 <= i < |cb.snd.buf| && cb.snd.buf[i] == x;
        assert p.buf[i] == x && r[i].sn == x.sn && r[i] in r;
      }
    }
  }

  lemma CallConserves(cfg: Config, cb: Cb, c: Call)
    requires Inv(cfg, cb)
    ensures WaitSnd(cb.snd) + Accepts(cfg, c) == Acknowledges(cfg, cb, c) + WaitSnd(Perform(cfg, cb, c).snd)
  {
    var r := Perform(cfg, cb, c);
    AcknowledgedAreGone(cfg, cb, c);
    match c
    case CallInput(d) =>
      InputInv(cfg, cb, d);
      InputNumbers(cfg, cb, d);
      NumbersCount(cb.snd.una, InFlight(cb.snd), cb.snd.buf);
      NumbersCount(r.snd.una, InFlight(r.snd), r.snd.buf);
      SubsetDifference(Numbers(cb.snd.buf), Numbers(r.snd.buf));
    case CallFlush => FlushNumbers(cfg, cb); NothingMissing(cb.snd.buf, r.snd.buf);
    case CallUpdate(now) => FlushNumbers(cfg, Ticked(cfg, cb, now)); NothingMissing(cb.snd.buf, r.snd.buf);
    case CallSend(m) => NothingMissing(cb.snd.buf, r.snd.buf);
    case CallRecv(len) => NothingMissing(cb.snd.buf, r.snd.buf);
  }

  lemma NothingMissing(a: seq<OutSeg>, b: seq<OutSeg>)
    requires Numbers(a) <= Numbers(b)
    ensures |Numbers(a) - Numbers(b)| == 0
  {
    assert Numbers(a) - Numbers(b) == {};
  }

  // Conservation under any input bytes: every fragment accepted has been acknowledged, by a header
  // that names it, or is counted by ikcp_waitsnd, never both, never lost.
  lemma {:induction false} Conservation(cfg: Config, cb: Cb, calls: seq<Call>)
    requires Inv(cfg, cb)
    ensures WaitSnd(cb.snd) + Accepted(cfg, calls)
         == Acknowledged(cfg, cb, calls) + WaitSnd(PerformAll(cfg, cb, calls).snd)
    decreases |calls|
  {
    if calls != [] {
      CallConserves(cfg, cb, calls[0]);
      PerformInv(cfg, cb, calls[0]);
      Conservation(cfg, Perform(cfg, cb, calls[0]), calls[1..]);
    }
  }

  // The start of the send window

  // How far a run moves the first unacknowledged number, and the next one, counted without
  // wrap-around.
  function UnaSteps(cfg: Config, cb: Cb, calls: seq<Call>): nat
    requires cfg.Valid()
    decreases |calls|
  {
    if calls == [] then 0
    else
      var next := Perform(cfg, cb, calls[0]);
      Off(cb.snd.una, next.snd.una) + UnaSteps(cfg, next, calls[1..])
  }

  function NxtSteps(cfg: Config, cb: Cb, calls: seq<Call>): nat
    requires cfg.Valid()
    decreases |calls|
  {
    if calls == [] then 0
    else
      var next := Perform(cfg, cb, calls[0]);
      Off(cb.snd.nxt, next.snd.nxt) + NxtSteps(cfg, next, calls[1..])
  }

  // What is in flight, and what waits, after one call: the window start has moved over what is no
  // longer in flight, and the next number over what no longer waits.
  lemma CallAdvances(cfg: Config, cb: Cb, c: Call)
    requires Inv(cfg, cb)
    ensures var s, r := cb.snd, Perform(cfg, cb, c).snd;
      && Off(s.una, r.una) + InFlight(r) == InFlight(s) + Off(s.nxt, r.nxt)
      && Off(s.nxt, r.nxt) + |r.queue| == |s.queue| + Accepts(cfg, c)
      && Off(s.una, r.una) <= InFlight(s)
  {
    match c
    case CallInput(d) => InputInv(cfg, cb, d);
    case CallFlush => FlushAdvances(cfg, cb);
    case CallUpdate(now) => FlushAdvances(cfg, Ticked(cfg, cb, now));
    case CallSend(m) =>
    case CallRecv(len) =>
  }

  lemma FlushAdvances(cfg: Config, cb: Cb)
    requires Inv(cfg, cb)
    ensures var s, r := cb.snd, FlushState(cfg, cb).snd;
      && r.una == s.una && InFlight(r) == InFlight(s) + Off(s.nxt, r.nxt) && Off(s.nxt, r.nxt) + |r.queue| == |s.queue|
  {
    if cb.clock.updated {
      var w := EffectiveWnd(cfg, cb.cong);
      AdmitInFlight(cb.snd, w, cb.clock.current, cb.rtt.rto);
      AdvanceOff(cb.snd.nxt, cb.snd.nxt, Room(cb.snd, w));
    }
  }

  lemma OffAdd(x: U32, y: U32, u: nat)
    ensures Wrap(x + (Off(x, y) + u)) == Wrap(y + u)
  {
  }

  // In every run, under any input bytes, the first unacknowledged number only advances: it has moved
  // by a sum of steps over numbers in flight, and stays behind the next number by what is in flight.
  lemma {:induction false} UnaOnlyAdvances(cfg: Config, cb: Cb, calls: seq<Call>)
    requires Inv(cfg, cb)
    ensures var s, r := cb.snd, PerformAll(cfg, cb, calls).snd;
      var u, n := UnaSteps(cfg, cb, calls), NxtSteps(cfg, cb, calls);
      && r.una == Wrap(s.una + u) && r.nxt == Wrap(s.nxt + n)
      && u + InFlight(r) == InFlight(s) + n && n + |r.queue| == |s.queue| + Accepted(cfg, calls)
    decreases |calls|
  {
    hide Perform, Accepts, InFlight, Off;
    if calls != [] {
      var next := Perform(cfg, cb, calls[0]);
      CallAdvances(cfg, cb, calls[0]);
      PerformInv(cfg, cb, calls[0]);
      UnaOnlyAdvances(cfg, next, calls[1..]);
      OffAdd(cb.snd.una, next.snd.una, UnaSteps(cfg, next, calls[1..]));
      OffAdd(cb.snd.nxt, next.snd.nxt, NxtSteps(cfg, next, calls[1..]));
    }
  }

  // The life of one segment

  // Why this call sends the segment `x` of the send buffer, if it does.
  function Why(cfg: Config, cb: Cb, c: Call, x: OutSeg): Reason
    requires cfg.Valid()
  {
    if c.CallFlush? && cb.clock.updated then Decide(cfg, cb.clock.current, x)
    else if c.CallUpdate? && FlushDue(Tick(cb.clock, c.now)) then Decide(cfg, c.now, x)
    else Keep
  }

  // This call is the input of a datagram whose newest acknowledgement lies beyond `x`.
  predicate Overtakes(cfg: Config, cb: Cb, c: Call, x: OutSeg)
    requires cfg.Valid()
  {
    c.CallInput? && Signed(Wrap(|c.datagram|)) >= OVERHEAD &&
    var reading := Read(cfg.conv, cfg.token, c.datagram);
    var newest := NewestAck(NoAck, reading.msgs);
    var s := ApplyAll(cfg, cb, reading.msgs).snd;
    reading.code == 0 && newest.Newest? && Outstanding(s, newest.sn) && Off(s.una, x.sn) < Off(s.una, newest.sn)
  }

  // What the call makes of the segment, as long as it stays in the send buffer.
  function Aged(cfg: Config, cb: Cb, c: Call, x: OutSeg): OutSeg
    requires cfg.Valid()
  {
    if Overtakes(cfg, cb, c, x) then x.(fastack := Add(x.fastack, 1))
    else if c.CallFlush? && cb.clock.updated then Touch(cfg, cb.clock.current, cb.rtt.rto, x)
    else if c.CallUpdate? && FlushDue(Tick(cb.clock, c.now)) then Touch(cfg, c.now, cb.rtt.rto, x)
    else x
  }

  lemma SameNumber(base: U32, w: nat, buf: seq<OutSeg>, x: OutSeg, y: OutSeg)
    requires OutWindow(base, w, buf) && x in buf && y in buf && x.sn == y.sn
    ensures x == y
  {
    var i :| 0 <= i < |buf| && buf[i] == x;
    var j :| 0 <= j < |buf| && buf[j] == y;
    if i < j {
      assert Off(base, buf[i].sn) < Off(base, buf[j].sn);
    } else if j < i {
      assert Off(base, buf[j].sn) < Off(base, buf[i].sn);
    }
  }

  // Acknowledgements only take segments out of the send buffer.
  lemma ApplyKeepsSegments(s: Sender, m: Msg, x: OutSeg)
    requires x in ApplySnd(s, m).buf
    ensures x in s.buf
  {
    var acked := Shrink(ParseUna(s, m.una));
    if m.cmd == CMD_ACK && Outstanding(acked, m.sn) {
      WithoutMembers(acked.buf, m.sn, x);
    }
    DropBeforeSuffix(s.buf, m.una);
  }

  lemma {:induction false} ApplyAllKeepsSegments(cfg: Config, cb: Cb, msgs: seq<Msg>, x: OutSeg)
    requires cfg.Valid() && x in ApplyAll(cfg, cb, msgs).snd.buf
    ensures x in cb.snd.buf
    decreases |msgs|
  {
    if msgs != [] {
      ApplyAllKeepsSegments(cfg, Apply(cfg, cb, msgs[0]), msgs[1..], x);
      ApplyKeepsSegments(cb.snd, msgs[0], x);
    }
  }

  // The segment that overtaking may have turned into `y`.
  lemma BeforeFastack(cfg: Config, cb: Cb, d: Bytes, y: OutSeg) returns (x: OutSeg)
    requires cfg.Valid() && Signed(Wrap(|d|)) >= OVERHEAD && y in Input(cfg, cb, d).0.snd.buf
    ensures x in ApplyAll(cfg, cb, Read(cfg.conv, cfg.token, d).msgs).snd.buf && x.sn == y.sn
    ensures y == if Overtakes(cfg, cb, CallInput(d), x) then x.(fastack := Add(x.fastack, 1)) else x
  {
    var reading := Read(cfg.conv, cfg.token, d);
    var s := ApplyAll(cfg, cb, reading.msgs).snd;
    var newest := NewestAck(NoAck, reading.msgs);
    x := y;
    if reading.code == 0 && newest.Newest? && Outstanding(s, newest.sn) {
      var i :| 0 <= i < |s.buf| && Overtaken(s.una, s.buf[i], newest.sn) == y;
      x := s.buf[i];
    }
  }

  lemma InputStep(cfg: Config, cb: Cb, d: Bytes, x: OutSeg, y: OutSeg)
    requires Inv(cfg, cb) && x in cb.snd.buf && y in Input(cfg, cb, d).0.snd.buf && y.sn == x.sn
    ensures y == Aged(cfg, cb, CallInput(d), x)
  {
    if Signed(Wrap(|d|)) < OVERHEAD {
      SameNumber(cb.snd.una, InFlight(cb.snd), cb.snd.buf, x, y);
    } else {
      var z := BeforeFastack(cfg, cb, d, y);
      ApplyAllKeepsSegments(cfg, cb, Read(cfg.conv, cfg.token, d).msgs, z);
      SameNumber(cb.snd.una, InFlight(cb.snd), cb.snd.buf, x, z);
    }
  }

  lemma FlushStep(cfg: Config, cb: Cb, x: OutSeg, y: OutSeg)
    requires Inv(cfg, cb) && x in cb.snd.buf && y in FlushState(cfg, cb).snd.buf && y.sn == x.sn
    ensures y == if cb.clock.updated then Touch(cfg, cb.clock.current, cb.rtt.rto, x) else x
  {
    if !cb.clock.updated {
      SameNumber(cb.snd.una, InFlight(cb.snd), cb.snd.buf, x, y);
    } else {
      PreparedInv(cfg, cb);
      var p := Prepared(cfg, cb);
      var i :| 0 <= i < |p.buf| && Touch(cfg, cb.clock.current, cb.rtt.rto, p.buf[i]) == y;
      assert x in p.buf && p.buf[i] in p.buf;
      SameNumber(p.una, InFlight(p), p.buf, x, p.buf[i]);
    }
  }

  // `Aged` is what really happens: a segment that is still in the send buffer after a call is the
  // aged one.
  lemma SegmentStep(cfg: Config, cb: Cb, c: Call, x: OutSeg, y: OutSeg)
    requires Inv(cfg, cb) && x in cb.snd.buf && y in Perform(cfg, cb, c).snd.buf && y.sn == x.sn
    ensures y == Aged(cfg, cb, c, x)
  {
    match c
    case CallSend(m) => SameNumber(cb.snd.una, InFlight(cb.snd), cb.snd.buf, x, y);
    case CallRecv(len) => SameNumber(cb.snd.una, InFlight(cb.snd), cb.snd.buf, x, y);
    case CallFlush => FlushStep(cfg, cb, x, y);
    case CallUpdate(now) =>
      if FlushDue(Tick(cb.clock, now)) {
        FlushStep(cfg, Ticked(cfg, cb, now), x, y);
      } else {
        SameNumber(cb.snd.una, InFlight(cb.snd), cb.snd.buf, x, y);
      }
    case CallInput(d) => InputStep(cfg, cb, d, x, y);
  }
}
