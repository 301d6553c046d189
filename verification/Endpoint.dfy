/** What every operation of one control block keeps, whatever bytes arrive and however far the
    serial numbers have wrapped. */
module Endpoint {
  import opened Serial
  import opened Wire
  import opened ControlBlock

  // Send side

  lemma {:induction false} DropBeforeSuffix(buf: seq<OutSeg>, una: U32)
    ensures DropBefore(buf, una) == buf[|buf| - |DropBefore(buf, una)|..]
  {
    if buf != [] && Diff(una, buf[0].sn) > 0 {
      DropBeforeSuffix(buf[1..], una);
    }
  }

  // What the cumulative acknowledgement drops lies before it.
  lemma {:induction false} DropBeforeKeeps(buf: seq<OutSeg>, una: U32, x: OutSeg)
    requires x in buf && x !in DropBefore(buf, una)
    ensures Diff(una, x.sn) > 0
  {
    if buf != [] && Diff(una, buf[0].sn) > 0 && x in buf[1..] {
      DropBeforeKeeps(buf[1..], una, x);
    }
  }

  lemma {:induction false} WithoutMembers(buf: seq<OutSeg>, sn: U32, x: OutSeg)
    ensures x in Without(buf, sn) <==> x in buf && x.sn != sn
  {
    if buf != [] {
      WithoutMembers(buf[1..], sn, x);
      assert x in buf <==> x == buf[0] || x in buf[1..];
    }
  }

  lemma ConsWindow(base: U32, w: nat, x: OutSeg, rest: seq<OutSeg>)
    requires OutWindow(base, w, rest) && Off(base, x.sn) < w
    requires forall i :: 0 <= i < |rest| ==> Off(base, x.sn) < Off(base, rest[i].sn)
    ensures OutWindow(base, w, [x] + rest)
  {
  }

  lemma TailWindow(base: U32, w: nat, buf: seq<OutSeg>)
    requires OutWindow(base, w, buf) && buf != []
    ensures OutWindow(base, w, buf[1..]) && Off(base, buf[0].sn) < w
    ensures forall x :: x in buf[1..] ==> Off(base, buf[0].sn) < Off(base, x.sn)
  {
  }

  lemma {:induction false} WithoutWindow(base: U32, w: nat, buf: seq<OutSeg>, sn: U32)
    requires OutWindow(base, w, buf)
    ensures OutWindow(base, w, Without(buf, sn))
  {
    if buf != [] {
      hide OutWindow, Off;
      var rest := Without(buf[1..], sn);
      TailWindow(base, w, buf);
      WithoutWindow(base, w, buf[1..], sn);
      forall i | 0 <= i < |rest| ensures Off(base, buf[0].sn) < Off(base, rest[i].sn) {
        WithoutMembers(buf[1..], sn, rest[i]);
      }
      ConsWindow(base, w, buf[0], rest);
      assert [] + rest == rest;
    }
  }

  // In a buffer of distinct serial numbers, removal takes out exactly the segment found.
  lemma {:induction false} WithoutAt(base: U32, w: nat, buf: seq<OutSeg>, i: nat)
    requires OutWindow(base, w, buf) && i < |buf|
    ensures Without(buf, buf[i].sn) == buf[..i] + buf[i + 1..]
  {
    if i == 0 {
      forall j | 0 <= j < |buf[1..]| ensures buf[1..][j].sn != buf[0].sn {
        assert Off(base, buf[0].sn) < Off(base, buf[j + 1].sn);
      }
      WithoutAbsent(buf[1..], buf[0].sn);
    } else {
      assert Off(base, buf[0].sn) < Off(base, buf[i].sn);
      assert buf[1..][i - 1] == buf[i];
      WithoutAt(base, w, buf[1..], i - 1);
      SplitAround(buf, i);
    }
  }

  lemma SplitAround(buf: seq<OutSeg>, i: nat)
    requires 0 < i < |buf|
    ensures [buf[0]] + (buf[1..][..i - 1] + buf[1..][i..]) == buf[..i] + buf[i + 1..]
  {
  }

  lemma {:induction false} WithoutAbsent(buf: seq<OutSeg>, sn: U32)
    requires forall i :: 0 <= i < |buf| ==> buf[i].sn != sn
    ensures Without(buf, sn) == buf
  {
    if buf != [] {
      WithoutAbsent(buf[1..], sn);
    }
  }

  lemma {:induction false} OutWindowSize(base: U32, w: nat, buf: seq<OutSeg>)
    requires OutWindow(base, w, buf)
    ensures |buf| <= w
    ensures buf != [] ==> |buf| <= Off(base, buf[|buf| - 1].sn) + 1
  {
    if |buf| > 1 {
      var front := buf[..|buf| - 1];
      OutWindowSize(base, w, front);
      assert Off(base, front[|front| - 1].sn) < Off(base, buf[|buf| - 1].sn);
    }
  }

  lemma {:induction false} InWindowSize(base: U32, w: nat, buf: seq<InSeg>)
    requires InWindow(base, w, buf)
    ensures |buf| <= w
    ensures buf != [] ==> |buf| <= Off(base, buf[|buf| - 1].sn) + 1
  {
    if |buf| > 1 {
      var front := buf[..|buf| - 1];
      InWindowSize(base, w, front);
      assert Off(base, front[|front| - 1].sn) < Off(base, buf[|buf| - 1].sn);
    }
  }

  // `later` is reached from `earlier` by acknowledgements alone: the first unacknowledged number
  // only moves forward, never past the next one, and the send queue is untouched.
  predicate Advances(earlier: Sender, later: Sender) {
    && later.nxt == earlier.nxt
    && Off(earlier.una, later.una) + InFlight(later) == InFlight(earlier)
    && later.queue == earlier.queue
    && |later.buf| <= |earlier.buf|
  }

  // Shrinking the window to what is left in the buffer moves its start forward.
  lemma ShrinkInv(sndWnd: nat, s: Sender)
    requires InFlight(s) <= sndWnd && InFlight(s) <= 0xFFFF && OutWindow(s.una, InFlight(s), s.buf)
    ensures SendInv(sndWnd, Shrink(s)) && Advances(s, Shrink(s))
  {
    var una := Oldest(s);
    forall i | 0 <= i < |s.buf|
      ensures Off(una, s.buf[i].sn) == Off(s.una, s.buf[i].sn) - Off(s.una, una)
    {
      OffRebase(s.una, una, s.buf[i].sn);
    }
    OffRebase(s.una, una, s.nxt);
  }

  lemma AdvancesTransitive(a: Sender, b: Sender, c: Sender)
    requires InFlight(a) <= 0xFFFF && Advances(a, b) && Advances(b, c)
    ensures Advances(a, c)
  {
    OffRebase(a.una, b.una, c.una);
  }

  predicate SenderInv(cfg: Config, s: Sender) {
    cfg.Valid() && SendInv(cfg.sndWnd, s) && SizeInv(cfg.Mss(), s)
  }

  lemma SuffixWindow(base: U32, w: nat, mss: nat, buf: seq<OutSeg>, k: nat)
    requires OutWindow(base, w, buf) && k <= |buf|
    requires forall i :: 0 <= i < |buf| ==> Sendable(mss, buf[i].frag)
    ensures OutWindow(base, w, buf[k..])
    ensures var r := buf[k..]; forall i :: 0 <= i < |r| ==> Sendable(mss, r[i].frag)
  {
  }

  lemma ParseUnaInv(cfg: Config, s: Sender, una: U32)
    requires SenderInv(cfg, s)
    ensures SenderInv(cfg, Shrink(ParseUna(s, una))) && Advances(s, Shrink(ParseUna(s, una)))
  {
    DropBeforeSuffix(s.buf, una);
    SuffixWindow(s.una, InFlight(s), cfg.Mss(), s.buf, |s.buf| - |DropBefore(s.buf, una)|);
    ShrinkInv(cfg.sndWnd, ParseUna(s, una));
  }

  lemma ParseAckInv(cfg: Config, s: Sender, sn: U32)
    requires SenderInv(cfg, s)
    ensures SenderInv(cfg, Shrink(ParseAck(s, sn))) && Advances(s, Shrink(ParseAck(s, sn)))
  {
    var r := Without(s.buf, sn);
    WithoutWindow(s.una, InFlight(s), s.buf, sn);
    forall i | 0 <= i < |r| ensures Sendable(cfg.Mss(), r[i].frag) {
      WithoutMembers(s.buf, sn, r[i]);
    }
    ShrinkInv(cfg.sndWnd, ParseAck(s, sn));
  }

  lemma ApplySndInv(cfg: Config, s: Sender, m: Msg)
    requires SenderInv(cfg, s)
    ensures SenderInv(cfg, ApplySnd(s, m)) && Advances(s, ApplySnd(s, m))
  {
    var acked := Shrink(ParseUna(s, m.una));
    ParseUnaInv(cfg, s, m.una);
    if m.cmd == CMD_ACK {
      ParseAckInv(cfg, acked, m.sn);
      AdvancesTransitive(s, acked, ApplySnd(s, m));
    }
  }

  // Receive side

  lemma {:induction false} RankSplits(base: U32, w: nat, buf: seq<InSeg>, sn: U32)
    requires InWindow(base, w, buf)
    ensures forall i :: 0 <= i < Rank(base, buf, sn) ==> Off(base, buf[i].sn) < Off(base, sn)
    ensures forall i :: Rank(base, buf, sn) <= i < |buf| ==> Off(base, buf[i].sn) >= Off(base, sn)
  {
    if buf != [] && Off(base, buf[0].sn) < Off(base, sn) {
      RankSplits(base, w, buf[1..], sn);
      forall i | 1 <= i < |buf| ensures buf[i] == buf[1..][i - 1] {}
    }
  }

  // The one position where `sn` can be inserted.
  lemma RankIs(base: U32, w: nat, buf: seq<InSeg>, sn: U32, k: nat)
    requires InWindow(base, w, buf) && k <= |buf|
    requires k > 0 ==> Off(base, buf[k - 1].sn) < Off(base, sn)
    requires k < |buf| ==> Off(base, buf[k].sn) >= Off(base, sn)
    ensures Rank(base, buf, sn) == k
  {
    RankSplits(base, w, buf, sn);
  }

  lemma InsertOrdered(base: U32, w: nat, buf: seq<InSeg>, s: InSeg, k: nat)
    requires InWindow(base, w, buf) && Off(base, s.sn) < w && k <= |buf|
    requires forall i :: 0 <= i < k ==> Off(base, buf[i].sn) < Off(base, s.sn)
    requires forall i :: k <= i < |buf| ==> Off(base, s.sn) < Off(base, buf[i].sn)
    ensures InWindow(base, w, buf[..k] + [s] + buf[k..])
  {
  }

  // Insertion keeps the order, adds exactly the new segment, and changes nothing when its number
  // is already there.
  lemma InsertWindow(base: U32, w: nat, buf: seq<InSeg>, s: InSeg)
    requires InWindow(base, w, buf) && Off(base, s.sn) < w
    ensures InWindow(base, w, Insert(base, buf, s))
    ensures s.sn in Sns(buf) ==> Insert(base, buf, s) == buf
    ensures s.sn !in Sns(buf) ==> forall x :: x in Insert(base, buf, s) <==> x in buf || x == s
  {
    var k := Rank(base, buf, s.sn);
    if s.sn !in Sns(buf) {
      RankSplits(base, w, buf, s.sn);
      forall i | k <= i < |buf| ensures Off(base, s.sn) < Off(base, buf[i].sn) {
        assert buf[i] in buf;
      }
      InsertOrdered(base, w, buf, s, k);
      InsertMembers(buf, s, k);
    }
  }

  lemma InsertMembers(buf: seq<InSeg>, s: InSeg, k: nat)
    requires k <= |buf|
    ensures forall x :: x in buf[..k] + [s] + buf[k..] <==> x in buf || x == s
  {
    assert buf == buf[..k] + buf[k..];
  }

  // How many segments at the front of the receive buffer continue the received prefix.
  function Promotable(wnd: nat, r: Receiver): (k: nat)
    ensures k <= |r.buf|
    decreases |r.buf|
  {
    if r.buf != [] && r.buf[0].sn == r.nxt && |r.queue| < wnd then
      1 + Promotable(wnd, Receiver(Add(r.nxt, 1), r.buf[1..], r.queue + [r.buf[0]]))
    else 0
  }

  // `r` after its first `k` buffered segments moved to the queue.
  function Moved(r: Receiver, k: nat): Receiver
    requires k <= |r.buf| && k < HALF
  {
    Receiver(Add(r.nxt, k), r.buf[k..], r.queue + r.buf[..k])
  }

  lemma MovedStep(r: Receiver, k: nat)
    requires 0 < k <= |r.buf| && k < HALF
    ensures Moved(Receiver(Add(r.nxt, 1), r.buf[1..], r.queue + [r.buf[0]]), k - 1) == Moved(r, k)
  {
    assert r.buf[1..][k - 1..] == r.buf[k..];
    assert r.queue + [r.buf[0]] + r.buf[1..][..k - 1] == r.queue + r.buf[..k];
  }

  lemma StepWindow(wnd: nat, r: Receiver)
    requires wnd < HALF && InWindow(r.nxt, wnd, r.buf) && r.buf != [] && r.buf[0].sn == r.nxt
    ensures InWindow(Add(r.nxt, 1), wnd, r.buf[1..])
  {
    forall i | 1 <= i < |r.buf|
      ensures Off(Add(r.nxt, 1), r.buf[i].sn) == Off(r.nxt, r.buf[i].sn) - 1
    {
      assert Off(r.nxt, r.buf[0].sn) < Off(r.nxt, r.buf[i].sn);
      OffRebase(r.nxt, Add(r.nxt, 1), r.buf[i].sn);
    }
  }

  // Promotion moves a prefix of the receive buffer, with consecutive serial numbers from the
  // next expected one, to the end of the receive queue; what stays behind is behind a gap or a
  // full queue.
  lemma {:induction false} PromoteShape(wnd: nat, r: Receiver)
    requires wnd < HALF && InWindow(r.nxt, wnd, r.buf) && |r.queue| <= wnd
    ensures Promotable(wnd, r) <= wnd - |r.queue|
    ensures Promote(wnd, r) == Moved(r, Promotable(wnd, r))
    ensures forall i :: 0 <= i < Promotable(wnd, r) ==> r.buf[i].sn == Add(r.nxt, i)
    ensures RecvInv(wnd, Promote(wnd, r))
    decreases |r.buf|
  {
    if r.buf != [] && r.buf[0].sn == r.nxt && |r.queue| < wnd {
      var next := Receiver(Add(r.nxt, 1), r.buf[1..], r.queue + [r.buf[0]]);
      StepWindow(wnd, r);
      PromoteShape(wnd, next);
      var k := Promotable(wnd, next);
      MovedStep(r, k + 1);
      forall i | 1 <= i < k + 1 ensures r.buf[i].sn == Add(r.nxt, i) {
        assert r.buf[i] == next.buf[i - 1];
      }
    } else {
      assert r.queue + r.buf[..0] == r.queue;
    }
  }

  // The two window tests of the code admit exactly the serial numbers of the receive window.
  lemma RecvWindowTest(wnd: nat, r: Receiver, sn: U32)
    requires wnd < HALF
    ensures BeforeWindowEnd(wnd, r, sn) && Diff(sn, r.nxt) >= 0 <==> Off(r.nxt, sn) < wnd
  {
  }

  lemma ParseDataInv(wnd: nat, r: Receiver, s: InSeg)
    requires wnd < HALF && RecvInv(wnd, r)
    ensures RecvInv(wnd, ParseData(wnd, r, s))
  {
    RecvWindowTest(wnd, r, s.sn);
    if BeforeWindowEnd(wnd, r, s.sn) && Diff(s.sn, r.nxt) >= 0 {
      InsertWindow(r.nxt, wnd, r.buf, s);
      PromoteShape(wnd, r.(buf := Insert(r.nxt, r.buf, s)));
    }
  }

  // Input

  lemma ApplyInv(cfg: Config, cb: Cb, m: Msg)
    requires Inv(cfg, cb)
    ensures Inv(cfg, Apply(cfg, cb, m)) && Advances(cb.snd, Apply(cfg, cb, m).snd)
  {
    ApplySndInv(cfg, cb.snd, m);
    ParseDataInv(cfg.rcvWnd, cb.rcv, Payload(m));
  }

  lemma {:induction false} ApplyAllInv(cfg: Config, cb: Cb, msgs: seq<Msg>)
    requires Inv(cfg, cb)
    ensures Inv(cfg, ApplyAll(cfg, cb, msgs)) && Advances(cb.snd, ApplyAll(cfg, cb, msgs).snd)
    decreases |msgs|
  {
    if msgs != [] {
      var next := Apply(cfg, cb, msgs[0]);
      ApplyInv(cfg, cb, msgs[0]);
      ApplyAllInv(cfg, next, msgs[1..]);
      AdvancesTransitive(cb.snd, next.snd, ApplyAll(cfg, next, msgs[1..]).snd);
    }
  }

  lemma ParseFastackInv(cfg: Config, s: Sender, sn: U32)
    requires SenderInv(cfg, s)
    ensures SenderInv(cfg, ParseFastack(s, sn))
    ensures ParseFastack(s, sn).una == s.una && Advances(s, ParseFastack(s, sn))
  {
    var r := ParseFastack(s, sn);
    forall i | 0 <= i < |r.buf| ensures r.buf[i].sn == s.buf[i].sn && r.buf[i].frag == s.buf[i].frag {}
  }

  // Whatever bytes arrive, the windows stay intact, the first unacknowledged number only moves
  // forward, and the send queue is untouched.
  lemma InputInv(cfg: Config, cb: Cb, b: Bytes)
    requires Inv(cfg, cb)
    ensures Inv(cfg, Input(cfg, cb, b).0) && Advances(cb.snd, Input(cfg, cb, b).0.snd)
  {
    var reading := Read(cfg.conv, cfg.token, b);
    ApplyAllInv(cfg, cb, reading.msgs);
    var applied := ApplyAll(cfg, cb, reading.msgs);
    var newest := NewestAck(NoAck, reading.msgs);
    if newest.Newest? {
      ParseFastackInv(cfg, applied.snd, newest.sn);
      AdvancesTransitive(cb.snd, applied.snd, ParseFastack(applied.snd, newest.sn));
    }
  }

  // The other operations

  // The fragments of one message: numbered down to zero, none longer than `mss`.
  predicate CountsDown(fs: seq<Frag>, mss: nat) {
    forall i :: 0 <= i < |fs| ==> fs[i].frg == |fs| - 1 - i && |fs[i].data| <= mss
  }

  lemma CountsDownStep(data: Bytes, rest: seq<Frag>, mss: nat)
    requires |data| <= mss && |rest| < HALF && CountsDown(rest, mss)
    ensures CountsDown([Frag(|rest|, data)] + rest, mss)
  {
    var fs := [Frag(|rest|, data)] + rest;
    forall i | 0 <= i < |fs| ensures fs[i].frg == |fs| - 1 - i && |fs[i].data| <= mss {
      assert i > 0 ==> fs[i] == rest[i - 1];
    }
  }

  lemma {:induction false} FragmentsCountDown(m: Bytes, mss: nat)
    requires mss > 0 && FragCount(|m|, mss) < WND_RCV
    ensures CountsDown(Fragments(m, mss), mss)
    decreases |m|
  {
    if |m| > mss {
      FragCountStep(|m|, mss);
      FragmentsCountDown(m[mss..], mss);
      CountsDownStep(m[..mss], Fragments(m[mss..], mss), mss);
    }
  }

  lemma QueueSendable(queue: seq<Frag>, fs: seq<Frag>, mss: nat)
    requires forall i :: 0 <= i < |queue| ==> Sendable(mss, queue[i])
    requires CountsDown(fs, mss) && |fs| <= 127
    ensures forall i :: 0 <= i < |queue + fs| ==> Sendable(mss, (queue + fs)[i])
  {
    forall i | |queue| <= i < |queue + fs| ensures Sendable(mss, (queue + fs)[i]) {
      assert (queue + fs)[i] == fs[i - |queue|];
    }
  }

  lemma SendKeepsInv(cfg: Config, cb: Cb, m: Bytes)
    requires Inv(cfg, cb)
    ensures Inv(cfg, Send(cfg, cb, m).0)
  {
    if FragCount(|m|, cfg.Mss()) < WND_RCV {
      FragmentsCountDown(m, cfg.Mss());
      QueueSendable(cb.snd.queue, Fragments(m, cfg.Mss()), cfg.Mss());
    }
  }

  lemma RecvKeepsInv(cfg: Config, cb: Cb, len: int)
    requires Inv(cfg, cb)
    ensures Inv(cfg, Recv(cfg, cb, len).cb)
  {
    var taken := if len < 0 then cb.rcv else cb.rcv.(queue := cb.rcv.queue[Span(cb.rcv.queue)..]);
    PromoteShape(cfg.rcvWnd, taken);
  }

  // The window test of the code's admission loop, in closed form.
  lemma WindowTest(s: Sender, w: U32)
    requires InFlight(s) <= 0xFFFF && w <= 0xFFFF
    ensures Diff(s.nxt, Add(s.una, w)) < 0 <==> InFlight(s) < w
  {
  }

  lemma WindowAppend(base: U32, w: nat, v: nat, buf: seq<OutSeg>, more: seq<OutSeg>)
    requires OutWindow(base, w, buf) && w + |more| <= v
    requires forall i :: 0 <= i < |more| ==> Off(base, more[i].sn) == w + i
    ensures OutWindow(base, v, buf + more)
  {
  }

  lemma AdmitInFlight(s: Sender, w: U32, now: U32, rto: U32)
    requires InFlight(s) <= 0xFFFF && w <= 0xFFFF
    ensures InFlight(Admit(s, w, now, rto)) == InFlight(s) + Room(s, w)
  {
    AdvanceOff(s.una, s.nxt, Room(s, w));
  }

  lemma AdmitWindow(s: Sender, w: U32, now: U32, rto: U32)
    requires InFlight(s) <= 0xFFFF && w <= 0xFFFF && OutWindow(s.una, InFlight(s), s.buf)
    ensures OutWindow(s.una, InFlight(s) + Room(s, w), Admit(s, w, now, rto).buf)
  {
    var k := Room(s, w);
    var more := AdmittedAll(s, k, now, rto);
    forall i | 0 <= i < k ensures Off(s.una, more[i].sn) == InFlight(s) + i {
      AdvanceOff(s.una, s.nxt, i);
    }
    WindowAppend(s.una, InFlight(s), InFlight(s) + k, s.buf, more);
  }

  lemma AdmitOldest(s: Sender, w: U32, now: U32, rto: U32)
    requires s.una == Oldest(s)
    ensures s.una == Oldest(Admit(s, w, now, rto))
  {
    var t := Admit(s, w, now, rto);
    if s.buf != [] {
      assert t.buf[0] == s.buf[0];
    } else if Room(s, w) > 0 {
      assert t.buf[0] == Admitted(s, 0, now, rto);
    }
  }

  // Admission gives consecutive serial numbers and keeps the number of segments in flight within
  // the send window.
  lemma AdmitInv(cfg: Config, s: Sender, w: U32, now: U32, rto: U32)
    requires SenderInv(cfg, s) && w <= cfg.sndWnd && w <= 0xFFFF
    ensures SenderInv(cfg, Admit(s, w, now, rto))
  {
    AdmitInFlight(s, w, now, rto);
    AdmitWindow(s, w, now, rto);
    AdmitOldest(s, w, now, rto);
    AdmitSizes(cfg.Mss(), s, AdmittedAll(s, Room(s, w), now, rto));
  }

  lemma AdmitSizes(mss: nat, s: Sender, more: seq<OutSeg>)
    requires SizeInv(mss, s) && |more| <= |s.queue| && forall i :: 0 <= i < |more| ==> more[i].frag == s.queue[i]
    ensures var queue := s.queue[|more|..]; forall i :: 0 <= i < |queue| ==> Sendable(mss, queue[i])
    ensures var buf := s.buf + more; forall i :: 0 <= i < |buf| ==> Sendable(mss, buf[i].frag)
  {
  }

  lemma PreparedInv(cfg: Config, cb: Cb)
    requires Inv(cfg, cb)
    ensures SenderInv(cfg, Prepared(cfg, cb))
  {
    AdmitInv(cfg, cb.snd, EffectiveWnd(cfg, cb.cong), cb.clock.current, cb.rtt.rto);
  }

  lemma FlushInv(cfg: Config, cb: Cb)
    requires Inv(cfg, cb)
    ensures Inv(cfg, FlushState(cfg, cb))
  {
    if cb.clock.updated {
      PreparedInv(cfg, cb);
      var p := Prepared(cfg, cb);
      var r := TouchAll(cfg, cb.clock.current, cb.rtt.rto, p.buf);
      forall i | 0 <= i < |r| ensures r[i].sn == p.buf[i].sn && r[i].frag == p.buf[i].frag {}
    }
  }

  lemma UpdateInv(cfg: Config, cb: Cb, now: U32)
    requires Inv(cfg, cb)
    ensures Inv(cfg, UpdateState(cfg, cb, now))
  {
    FlushInv(cfg, Ticked(cfg, cb, now));
  }

  // Every message of a flush fits a datagram.
  lemma FlushMsgsFit(cfg: Config, cb: Cb)
    requires Inv(cfg, cb)
    ensures AllFit(cfg.mtu, FlushMsgs(cfg, cb))
  {
    PreparedInv(cfg, cb);
    DataMsgsFit(cfg, cb.rcv, cb.clock.current, Prepared(cfg, cb).buf);
  }

  lemma {:induction false} DataMsgsFit(cfg: Config, r: Receiver, now: U32, buf: seq<OutSeg>)
    requires cfg.Valid() && forall i :: 0 <= i < |buf| ==> Sendable(cfg.Mss(), buf[i].frag)
    ensures AllFit(cfg.mtu, DataMsgs(cfg, r, now, buf))
  {
    if buf != [] {
      DataMsgsFit(cfg, r, now, buf[1..]);
      assert Sendable(cfg.Mss(), buf[0].frag);
    }
  }

  // Packing is undone by the peer: every datagram of a flush has between 28 and mtu bytes and is
  // accepted, and the datagrams say exactly the acknowledgements, probes and data chosen.
  lemma FlushReadBack(cfg: Config, cb: Cb)
    requires Inv(cfg, cb) && cb.clock.updated
    ensures AllDeliverable(cfg.conv, cfg.token, cfg.mtu, FlushOut(cfg, cb))
    ensures ReadAll(cfg.conv, cfg.token, FlushOut(cfg, cb)) == FlushMsgs(cfg, cb)
  {
    FlushMsgsFit(cfg, cb);
    assert Says(cfg.conv, cfg.token, [], []);
    PackRoundTrip(cfg.conv, cfg.token, cfg.mtu, [], [], FlushMsgs(cfg, cb));
  }
}
