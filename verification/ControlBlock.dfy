/** The KCP control block as a value, and what each operation of the protocol does to it.
    The class in `Kcp.dfy` performs the same operations step by step and is proved against
    the functions of this module. */
module ControlBlock {
  import opened Arithmetic
  import opened Serial
  import opened Wire

  const RTO_NDL := 30
  const RTO_MIN := 100
  const RTO_DEF: U32 := 200
  const RTO_MAX: U32 := 60000
  const WND_RCV: U16 := 128
  const THRESH_INIT: U32 := 2
  const THRESH_MIN: U32 := 2
  const PROBE_INIT: U32 := 7000
  const PROBE_LIMIT: U32 := 120000

  // What is fixed before the first send: identifiers, segment size, windows and modes.
  datatype Config = Config(
    conv: U32, token: U32, mtu: nat, sndWnd: nat, rcvWnd: nat,
    nodelay: nat, interval: nat, fastresend: nat, fastlimit: int, nocwnd: bool, deadLink: U32)
  {
    // The ranges the setters enforce; the bound on the mtu keeps the size of the output
    // buffer, three times mtu plus a header, inside 32 bits.
    predicate Valid() {
      && 50 <= mtu <= 0x5555_5555 - OVERHEAD
      && 0 < sndWnd < HALF
      && WND_RCV <= rcvWnd < HALF
      && 10 <= interval <= 5000
      && nodelay < HALF && fastresend < HALF && -HALF <= fastlimit < HALF
    }

    function Mss(): (mss: nat)
      requires Valid()
      ensures 22 <= mss < HALF
    {
      mtu - OVERHEAD
    }

    function MinRto(): U32 {
      if nodelay != 0 then RTO_NDL else RTO_MIN
    }

    // How many later acks trigger a fast retransmit.
    function Resent(): U32
      requires Valid()
    {
      if fastresend > 0 then fastresend else 0xffff_ffff
    }
  }

  // A fragment of a message: how many fragments of the message follow it, and its bytes.
  datatype Frag = Frag(frg: U32, data: Bytes)

  // A segment in the send buffer.
  datatype OutSeg = OutSeg(sn: U32, frag: Frag, resendts: U32, rto: U32, fastack: U32, xmit: U32)

  // A segment in the receive buffer or the receive queue.
  datatype InSeg = InSeg(sn: U32, frag: Frag)

  datatype Ack = Ack(sn: U32, ts: U32)

  // The send side: the first unacknowledged and the next serial number, the fragments without
  // a number, and the numbered ones in flight.
  datatype Sender = Sender(una: U32, nxt: U32, queue: seq<Frag>, buf: seq<OutSeg>)

  // The receive side: the next expected number, what arrived ahead of it, and what is ready.
  datatype Receiver = Receiver(nxt: U32, buf: seq<InSeg>, queue: seq<InSeg>)

  datatype Rtt = Rtt(rttval: int, srtt: int, rto: U32)

  datatype Congestion = Congestion(rmtWnd: U16, cwnd: U32, ssthresh: U32, incr: U32)

  datatype Probe = Probe(askSend: bool, askTell: bool, ts: U32, wait: U32)

  datatype Clock = Clock(current: U32, updated: bool, tsFlush: U32)

  datatype Cb = Cb(
    snd: Sender, rcv: Receiver, rtt: Rtt, cong: Congestion, probe: Probe, clock: Clock,
    acklist: seq<Ack>, xmit: U32, dead: bool)

  const INITIAL := Cb(
    Sender(0, 0, [], []), Receiver(0, [], []), Rtt(0, 0, RTO_DEF),
    Congestion(WND_RCV, 0, THRESH_INIT, 0), Probe(false, false, 0, 0), Clock(0, false, 100),
    [], 0, false)

  // Invariant

  // The serial numbers of `buf` increase strictly inside a window of `w` numbers from `base`.
  predicate OutWindow(base: U32, w: nat, buf: seq<OutSeg>) {
    && (forall i :: 0 <= i < |buf| ==> Off(base, buf[i].sn) < w)
    && (forall i, j :: 0 <= i < j < |buf| ==> Off(base, buf[i].sn) < Off(base, buf[j].sn))
  }

  predicate InWindow(base: U32, w: nat, buf: seq<InSeg>) {
    && (forall i :: 0 <= i < |buf| ==> Off(base, buf[i].sn) < w)
    && (forall i, j :: 0 <= i < j < |buf| ==> Off(base, buf[i].sn) < Off(base, buf[j].sn))
  }

  function InFlight(s: Sender): U32 {
    Off(s.una, s.nxt)
  }

  // The send window. No more than 65535 segments are in flight: the peer advertises no more.
  predicate SendInv(sndWnd: nat, s: Sender) {
    && InFlight(s) <= sndWnd && InFlight(s) <= 0xFFFF
    && OutWindow(s.una, InFlight(s), s.buf)
    && s.una == Oldest(s)
  }

  function Oldest(s: Sender): U32 {
    if s.buf == [] then s.nxt else s.buf[0].sn
  }

  // The receive window. Data waits in the buffer only behind a gap or a full queue.
  predicate RecvInv(rcvWnd: nat, r: Receiver) {
    && InWindow(r.nxt, rcvWnd, r.buf)
    && |r.queue| <= rcvWnd
    && (r.buf != [] && r.buf[0].sn == r.nxt ==> |r.queue| == rcvWnd)
  }

  // A message is cut into at most 127 fragments of at most mss bytes.
  predicate Sendable(mss: nat, f: Frag) {
    f.frg < 127 && |f.data| <= mss
  }

  predicate SizeInv(mss: nat, s: Sender) {
    && (forall i :: 0 <= i < |s.queue| ==> Sendable(mss, s.queue[i]))
    && (forall i :: 0 <= i < |s.buf| ==> Sendable(mss, s.buf[i].frag))
  }

  predicate Inv(cfg: Config, cb: Cb) {
    && cfg.Valid()
    && SendInv(cfg.sndWnd, cb.snd) && SizeInv(cfg.Mss(), cb.snd)
    && RecvInv(cfg.rcvWnd, cb.rcv)
    && cfg.MinRto() <= cb.rtt.rto <= RTO_MAX
  }

  // Messages and fragments

  function FragCount(len: nat, mss: nat): nat
    requires mss > 0
  {
    if len <= mss then 1 else (len + mss - 1) / mss
  }

  // A message cut into pieces of `mss` bytes, each numbered by how many follow it.
  function Fragments(m: Bytes, mss: nat): (fs: seq<Frag>)
    requires mss > 0 && FragCount(|m|, mss) < WND_RCV
    ensures |fs| == FragCount(|m|, mss)
    decreases |m|
  {
    if |m| <= mss then [Frag(0, m)]
    else
      FragCountStep(|m|, mss);
      var rest := Fragments(m[mss..], mss);
      [Frag(|rest|, m[..mss])] + rest
  }

  lemma FragCountStep(len: nat, mss: nat)
    requires 0 < mss < len
    ensures FragCount(len, mss) == 1 + FragCount(len - mss, mss)
  {
    var q, r := (len - 1) / mss, (len - 1) % mss;
    assert (q + 1) * mss == q * mss + mss;
    DivUnique(len + mss - 1, mss, q + 1, r);
    if len - mss <= mss {
      DivUnique(len - 1, mss, 1, len - 1 - mss);
    }
  }

  function Quotient(x: U32, d: nat): (q: U32)
    requires d > 0
  {
    QuotientBounds(x, d);
    x / d
  }

  // The bytes of a sequence of fragments, one after the other.
  function Join(fs: seq<Frag>): Bytes {
    if fs == [] then [] else fs[0].data + Join(fs[1..])
  }

  function FragsOf(q: seq<InSeg>): (fs: seq<Frag>)
    ensures |fs| == |q|
    ensures forall i :: 0 <= i < |q| ==> fs[i] == q[i].frag
  {
    seq(|q|, i requires 0 <= i < |q| => q[i].frag)
  }

  // How many queued segments the next message takes: up to the first numbered 0.
  function Span(q: seq<InSeg>): (n: nat)
    ensures n <= |q|
    ensures q != [] ==> n > 0
  {
    if q == [] then 0
    else if q[0].frag.frg == 0 then 1
    else 1 + Span(q[1..])
  }

  // ikcp_peeksize: the size of the next complete message, or -1.
  function PeekSize(q: seq<InSeg>): (size: int)
    ensures size >= -1
  {
    if q == [] then -1
    else if |q| < q[0].frag.frg + 1 then -1
    else |Join(FragsOf(q[..Span(q)]))|
  }

  // Data that continues the received prefix moves to the receive queue while there is room.
  function Promote(wnd: nat, r: Receiver): Receiver
    decreases |r.buf|
  {
    if r.buf != [] && r.buf[0].sn == r.nxt && |r.queue| < wnd then
      Promote(wnd, Receiver(Add(r.nxt, 1), r.buf[1..], r.queue + [r.buf[0]]))
    else r
  }

  // ikcp_recv with a buffer of `len` bytes; a negative `len` peeks.
  datatype Received = Received(cb: Cb, code: int, data: Bytes)

  function Recv(cfg: Config, cb: Cb, len: int): Received {
    var room := if len < 0 then -len else len;
    var q := cb.rcv.queue;
    if q == [] then Received(cb, -1, [])
    else if PeekSize(q) < 0 then Received(cb, -2, [])
    else if PeekSize(q) > room then Received(cb, -3, [])
    else
      var data := Join(FragsOf(q[..Span(q)]));
      var taken := if len < 0 then cb.rcv else cb.rcv.(queue := q[Span(q)..]);
      var moved := Promote(cfg.rcvWnd, taken);
      var recovered := |q| >= cfg.rcvWnd && |moved.queue| < cfg.rcvWnd;
      Received(cb.(rcv := moved, probe := cb.probe.(askTell := cb.probe.askTell || recovered)), |data|, data)
  }

  // ikcp_send in message mode.
  function Send(cfg: Config, cb: Cb, m: Bytes): (r: (Cb, int))
    requires cfg.Valid()
  {
    if FragCount(|m|, cfg.Mss()) >= WND_RCV then (cb, -2)
    else (cb.(snd := cb.snd.(queue := cb.snd.queue + Fragments(m, cfg.Mss()))), 0)
  }

  // Input

  // The smoothed round-trip time and the retransmission timeout after one sample.
  function UpdateAck(cfg: Config, t: Rtt, rtt: int): Rtt
    requires cfg.Valid()
  {
    var srtt := if t.srtt == 0 then rtt else Max(1, TowardsZero(Signed(Wrap(7 * t.srtt + rtt)), 8));
    var rttval :=
      if t.srtt == 0 then HalfTowardsZero(rtt)
      else TowardsZero(Signed(Wrap(3 * t.rttval)) + Abs(rtt - t.srtt), 4);
    var rto := Wrap(srtt + Max(cfg.interval, Wrap(4 * rttval)));
    Rtt(rttval, srtt, Min(Max(cfg.MinRto(), rto), RTO_MAX))
  }

  function Abs(x: int): int {
    if x < 0 then -x else x
  }

  // C division of a signed value by a positive one: towards zero.
  function TowardsZero(x: int, d: nat): int
    requires d > 0
  {
    if x >= 0 then x / d else -((-x) / d)
  }

  // The window starts at the oldest segment still in the buffer.
  function Shrink(s: Sender): Sender {
    s.(una := Oldest(s))
  }

  // Cumulative acknowledgement: everything before `una` leaves the front of the buffer.
  function DropBefore(buf: seq<OutSeg>, una: U32): (r: seq<OutSeg>)
    ensures |r| <= |buf|
  {
    if buf != [] && Diff(una, buf[0].sn) > 0 then DropBefore(buf[1..], una) else buf
  }

  // Selective acknowledgement: the segment numbered `sn` leaves the buffer.
  function Without(buf: seq<OutSeg>, sn: U32): (r: seq<OutSeg>)
    ensures |r| <= |buf|
  {
    if buf == [] then []
    else (if buf[0].sn == sn then [] else [buf[0]]) + Without(buf[1..], sn)
  }

  predicate Outstanding(s: Sender, sn: U32) {
    Diff(sn, s.una) >= 0 && Diff(sn, s.nxt) < 0
  }

  function ParseUna(s: Sender, una: U32): Sender {
    s.(buf := DropBefore(s.buf, una))
  }

  function ParseAck(s: Sender, sn: U32): Sender {
    if Outstanding(s, sn) then s.(buf := Without(s.buf, sn)) else s
  }

  // Every outstanding segment older than the newest acknowledged one has been overtaken.
  function ParseFastack(s: Sender, sn: U32): Sender {
    if Outstanding(s, sn) then s.(buf := OvertakenAll(s.una, s.buf, sn)) else s
  }

  function OvertakenAll(base: U32, buf: seq<OutSeg>, sn: U32): seq<OutSeg> {
    seq(|buf|, i requires 0 <= i < |buf| => Overtaken(base, buf[i], sn))
  }

  function Overtaken(base: U32, s: OutSeg, sn: U32): OutSeg {
    if Off(base, s.sn) < Off(base, sn) then s.(fastack := Add(s.fastack, 1)) else s
  }

  function Sns(buf: seq<InSeg>): set<U32> {
    set s | s in buf :: s.sn
  }

  // How many segments of the buffer precede `sn`.
  function Rank(base: U32, buf: seq<InSeg>, sn: U32): (k: nat)
    ensures k <= |buf|
  {
    if buf != [] && Off(base, buf[0].sn) < Off(base, sn) then 1 + Rank(base, buf[1..], sn) else 0
  }

  // Sorted insertion that ignores duplicates.
  function Insert(base: U32, buf: seq<InSeg>, s: InSeg): seq<InSeg> {
    if s.sn in Sns(buf) then buf
    else
      var k := Rank(base, buf, s.sn);
      buf[..k] + [s] + buf[k..]
  }

  predicate BeforeWindowEnd(wnd: nat, r: Receiver, sn: U32)
    requires wnd < HALF
  {
    Diff(sn, Add(r.nxt, wnd)) < 0
  }

  function ParseData(wnd: nat, r: Receiver, s: InSeg): Receiver
    requires wnd < HALF
  {
    if BeforeWindowEnd(wnd, r, s.sn) && Diff(s.sn, r.nxt) >= 0 then
      Promote(wnd, r.(buf := Insert(r.nxt, r.buf, s)))
    else r
  }

  function Payload(m: Msg): InSeg {
    InSeg(m.sn, Frag(m.frg, m.data))
  }

  // What one header with its payload does to each part of the control block.
  function ApplySnd(s: Sender, m: Msg): Sender {
    var acked := Shrink(ParseUna(s, m.una));
    if m.cmd == CMD_ACK then Shrink(ParseAck(acked, m.sn)) else acked
  }

  function ApplyRcv(wnd: nat, r: Receiver, m: Msg): Receiver
    requires wnd < HALF
  {
    if m.cmd == CMD_PUSH && BeforeWindowEnd(wnd, r, m.sn) then ParseData(wnd, r, Payload(m)) else r
  }

  // Data is acknowledged unless it is beyond the window.
  function ApplyAcks(wnd: nat, r: Receiver, acks: seq<Ack>, m: Msg): seq<Ack>
    requires wnd < HALF
  {
    if m.cmd == CMD_PUSH && BeforeWindowEnd(wnd, r, m.sn) then acks + [Ack(m.sn, m.ts)] else acks
  }

  function ApplyRtt(cfg: Config, t: Rtt, now: U32, m: Msg): Rtt
    requires cfg.Valid()
  {
    var rtt := Diff(now, m.ts);
    if m.cmd == CMD_ACK && rtt >= 0 then UpdateAck(cfg, t, rtt) else t
  }

  function Apply(cfg: Config, cb: Cb, m: Msg): Cb
    requires cfg.Valid()
  {
    cb.(snd := ApplySnd(cb.snd, m),
        rcv := ApplyRcv(cfg.rcvWnd, cb.rcv, m),
        acklist := ApplyAcks(cfg.rcvWnd, cb.rcv, cb.acklist, m),
        rtt := ApplyRtt(cfg, cb.rtt, cb.clock.current, m),
        cong := cb.cong.(rmtWnd := m.wnd),
        probe := cb.probe.(askTell := cb.probe.askTell || m.cmd == CMD_WASK))
  }

  function ApplyAll(cfg: Config, cb: Cb, msgs: seq<Msg>): Cb
    requires cfg.Valid()
    decreases |msgs|
  {
    if msgs == [] then cb else ApplyAll(cfg, Apply(cfg, cb, msgs[0]), msgs[1..])
  }

  // The newest serial number that a datagram acknowledges selectively.
  datatype Newest = NoAck | Newest(sn: U32)

  function NewerAck(n: Newest, m: Msg): Newest {
    if m.cmd != CMD_ACK then n
    else if n.NoAck? || Diff(m.sn, n.sn) > 0 then Newest(m.sn)
    else n
  }

  function NewestAck(n: Newest, msgs: seq<Msg>): Newest
    decreases |msgs|
  {
    if msgs == [] then n else NewestAck(NewerAck(n, msgs[0]), msgs[1..])
  }

  // The congestion window opens when the datagram acknowledged something new.
  function Grow(mss: nat, c: Congestion, progress: bool): Congestion
    requires 0 < mss < HALF
  {
    if progress && c.cwnd < c.rmtWnd then
      var grown :=
        if c.cwnd < c.ssthresh then c.(cwnd := Add(c.cwnd, 1), incr := Add(c.incr, mss))
        else Creep(mss, c);
      if grown.cwnd > c.rmtWnd then grown.(cwnd := c.rmtWnd, incr := Wrap(c.rmtWnd * mss)) else grown
    else c
  }

  // Congestion avoidance: about one segment more for each window acknowledged.
  function Creep(mss: nat, c: Congestion): Congestion
    requires 0 < mss < HALF
  {
    var base: U32 := Max(c.incr, mss);
    var incr := Wrap(base + Quotient(Wrap(mss * mss), base) + mss / 16);
    var cwnd := if Wrap(Add(c.cwnd, 1) * mss) <= incr then Quotient(Wrap(incr + mss - 1), mss) else c.cwnd;
    c.(cwnd := cwnd, incr := incr)
  }

  // ikcp_input.
  function Input(cfg: Config, cb: Cb, b: Bytes): (r: (Cb, int))
    requires cfg.Valid()
  {
    if Signed(Wrap(|b|)) < OVERHEAD then (cb, -1)
    else
      var reading := Read(cfg.conv, cfg.token, b);
      var applied := ApplyAll(cfg, cb, reading.msgs);
      if reading.code != 0 then (applied, reading.code)
      else
        var newest := NewestAck(NoAck, reading.msgs);
        var snd := if newest.Newest? then ParseFastack(applied.snd, newest.sn) else applied.snd;
        (applied.(snd := snd, cong := Grow(cfg.Mss(), applied.cong, Diff(snd.una, cb.snd.una) > 0)), 0)
  }

  // Flush

  function WndUnused(wnd: nat, r: Receiver): nat {
    if |r.queue| < wnd then wnd - |r.queue| else 0
  }

  // The window as advertised: cut to the 16 bits of its field.
  function Advertised(wnd: nat, r: Receiver): U16 {
    WndUnused(wnd, r) % 0x1_0000
  }

  // A header without payload: window and acknowledgement of the receive side ride along.
  function Control(wnd: nat, r: Receiver, cmd: Byte, a: Ack): Msg {
    Msg(cmd, 0, Advertised(wnd, r), a.ts, a.sn, r.nxt, [])
  }

  function AckMsgs(wnd: nat, r: Receiver, acks: seq<Ack>): seq<Msg> {
    seq(|acks|, i requires 0 <= i < |acks| => Control(wnd, r, CMD_ACK, acks[i]))
  }

  // Probes reuse the header of the last acknowledgement.
  function LastAck(acks: seq<Ack>): Ack {
    if acks == [] then Ack(0, 0) else acks[|acks| - 1]
  }

  function ProbeMsgs(wnd: nat, r: Receiver, p: Probe, a: Ack): seq<Msg> {
    (if p.askSend then [Control(wnd, r, CMD_WASK, a)] else [])
    + (if p.askTell then [Control(wnd, r, CMD_WINS, a)] else [])
  }

  // The zero-window probe timer.
  function ProbeTimer(p: Probe, rmtWnd: U16, now: U32): Probe {
    if rmtWnd != 0 then p.(ts := 0, wait := 0)
    else if p.wait == 0 then p.(wait := PROBE_INIT, ts := Add(now, PROBE_INIT))
    else if Diff(now, p.ts) < 0 then p
    else
      var wait := Max(PROBE_INIT, p.wait);
      var longer := Min(PROBE_LIMIT, Wrap(wait + wait / 2));
      p.(wait := longer, ts := Add(now, longer), askSend := true)
  }

  // How many segments may be in flight.
  function EffectiveWnd(cfg: Config, c: Congestion): (w: U32)
    ensures w <= cfg.sndWnd && w <= c.rmtWnd
  {
    var w := Min(cfg.sndWnd, c.rmtWnd);
    if cfg.nocwnd then w else Min(c.cwnd, w)
  }

  // How many queued fragments get serial numbers while the window has room.
  function Room(s: Sender, w: nat): (k: nat)
    ensures k <= |s.queue|
  {
    Min(|s.queue|, Max(0, w - InFlight(s)))
  }

  function Admit(s: Sender, w: nat, now: U32, rto: U32): Sender {
    AdmitSome(s, Room(s, w), now, rto)
  }

  function AdmitSome(s: Sender, k: nat, now: U32, rto: U32): Sender
    requires k <= |s.queue|
  {
    Sender(s.una, Advance(s.nxt, k), s.queue[k..], s.buf + AdmittedAll(s, k, now, rto))
  }

  function AdmittedAll(s: Sender, k: nat, now: U32, rto: U32): (buf: seq<OutSeg>)
    requires k <= |s.queue|
    ensures |buf| == k
  {
    seq(k, i requires 0 <= i < k => Admitted(s, i, now, rto))
  }

  function Admitted(s: Sender, i: nat, now: U32, rto: U32): OutSeg
    requires i < |s.queue|
  {
    OutSeg(Advance(s.nxt, i), s.queue[i], now, rto, 0, 0)
  }

  // Why a flush sends a segment, if it does.
  datatype Reason = Keep | First | Timeout | Fast

  function Decide(cfg: Config, now: U32, s: OutSeg): Reason
    requires cfg.Valid()
  {
    if s.xmit == 0 then First
    else if Diff(now, s.resendts) >= 0 then Timeout
    else if s.fastack >= cfg.Resent() && (Signed(s.xmit) <= cfg.fastlimit || cfg.fastlimit <= 0) then Fast
    else Keep
  }

  // The extra delay of a first transmission.
  function FirstDelay(cfg: Config, rxRto: U32): U32 {
    if cfg.nodelay == 0 then rxRto / 8 else 0
  }

  function Backoff(cfg: Config, rxRto: U32, rto: U32): U32 {
    if cfg.nodelay == 0 then Wrap(rto + Max(rto, rxRto))
    else Wrap(rto + HalfTowardsZero(if cfg.nodelay < 2 then Signed(rto) else rxRto))
  }

  function Touch(cfg: Config, now: U32, rxRto: U32, s: OutSeg): OutSeg
    requires cfg.Valid()
  {
    match Decide(cfg, now, s)
    case Keep => s
    case First => s.(xmit := 1, rto := rxRto, resendts := Wrap(now + rxRto + FirstDelay(cfg, rxRto)))
    case Timeout =>
      var rto := Backoff(cfg, rxRto, s.rto);
      s.(xmit := Add(s.xmit, 1), rto := rto, resendts := Add(now, rto))
    case Fast => s.(xmit := Add(s.xmit, 1), fastack := 0, resendts := Add(now, s.rto))
  }

  function TouchAll(cfg: Config, now: U32, rxRto: U32, buf: seq<OutSeg>): seq<OutSeg>
    requires cfg.Valid()
  {
    seq(|buf|, i requires 0 <= i < |buf| => Touch(cfg, now, rxRto, buf[i]))
  }

  function DataMsg(wnd: nat, r: Receiver, now: U32, s: OutSeg): Msg {
    Msg(CMD_PUSH, s.frag.frg % 0x100, Advertised(wnd, r), now, s.sn, r.nxt, s.frag.data)
  }

  // The data segments a flush sends, in the order of the buffer.
  function DataMsgs(cfg: Config, r: Receiver, now: U32, buf: seq<OutSeg>): seq<Msg>
    requires cfg.Valid()
  {
    if buf == [] then []
    else
      DataSaid(cfg, r, now, buf[0]) + DataMsgs(cfg, r, now, buf[1..])
  }

  function DataSaid(cfg: Config, r: Receiver, now: U32, s: OutSeg): seq<Msg>
    requires cfg.Valid()
  {
    if Decide(cfg, now, s) == Keep then [] else [DataMsg(cfg.rcvWnd, r, now, s)]
  }

  function CountReason(cfg: Config, now: U32, buf: seq<OutSeg>, why: Reason): (n: nat)
    requires cfg.Valid()
    ensures n <= |buf|
  {
    if buf == [] then 0
    else (if Decide(cfg, now, buf[0]) == why then 1 else 0) + CountReason(cfg, now, buf[1..], why)
  }

  // Some segment of the flush has been sent as often as a live link allows.
  predicate AnyDead(cfg: Config, now: U32, rxRto: U32, buf: seq<OutSeg>)
    requires cfg.Valid()
  {
    exists i :: 0 <= i < |buf| && Exhausted(cfg, now, rxRto, buf[i])
  }

  predicate Exhausted(cfg: Config, now: U32, rxRto: U32, s: OutSeg)
    requires cfg.Valid()
  {
    Decide(cfg, now, s) != Keep && Touch(cfg, now, rxRto, s).xmit >= cfg.deadLink
  }

  // Congestion control after a flush that fast-retransmitted or timed something out.
  function React(cfg: Config, c: Congestion, inFlight: U32, change: bool, lost: bool, w: U32): Congestion
    requires cfg.Valid()
  {
    var mss := cfg.Mss();
    var changed :=
      if change then
        var thresh: U32 := Max(THRESH_MIN, inFlight / 2);
        var cwnd := Add(thresh, cfg.Resent());
        c.(ssthresh := thresh, cwnd := cwnd, incr := Wrap(cwnd * mss))
      else c;
    var backed :=
      if lost then changed.(ssthresh := Max(THRESH_MIN, w / 2), cwnd := 1, incr := mss)
      else changed;
    if backed.cwnd < 1 then backed.(cwnd := 1, incr := mss) else backed
  }

  // The congestion state after the data segments of `p` were sent.
  function Reacted(cfg: Config, c: Congestion, now: U32, p: Sender): Congestion
    requires cfg.Valid()
  {
    React(cfg, c, InFlight(p), CountReason(cfg, now, p.buf, Fast) > 0, CountReason(cfg, now, p.buf, Timeout) > 0,
          EffectiveWnd(cfg, c))
  }

  // The probe state when pending probes have been sent.
  function Answered(p: Probe): Probe {
    p.(askSend := false, askTell := false)
  }

  // The send side when the data segments are about to be sent.
  function Prepared(cfg: Config, cb: Cb): Sender {
    Admit(cb.snd, EffectiveWnd(cfg, cb.cong), cb.clock.current, cb.rtt.rto)
  }

  // Everything a flush says, in order: acknowledgements, probes, data.
  function FlushMsgs(cfg: Config, cb: Cb): seq<Msg>
    requires cfg.Valid()
  {
    var probe := ProbeTimer(cb.probe, cb.cong.rmtWnd, cb.clock.current);
    AckMsgs(cfg.rcvWnd, cb.rcv, cb.acklist)
    + (ProbeMsgs(cfg.rcvWnd, cb.rcv, probe, LastAck(cb.acklist))
       + DataMsgs(cfg, cb.rcv, cb.clock.current, Prepared(cfg, cb).buf))
  }

  // ikcp_flush: the new control block and the datagrams handed to the output callback.
  function FlushState(cfg: Config, cb: Cb): Cb
    requires cfg.Valid()
  {
    if !cb.clock.updated then cb
    else
      var now, rto := cb.clock.current, cb.rtt.rto;
      var p := Prepared(cfg, cb);
      cb.(snd := p.(buf := TouchAll(cfg, now, rto, p.buf)),
          cong := Reacted(cfg, cb.cong, now, p),
          probe := Answered(ProbeTimer(cb.probe, cb.cong.rmtWnd, now)),
          acklist := [],
          xmit := Wrap(cb.xmit + CountReason(cfg, now, p.buf, Timeout)),
          dead := cb.dead || AnyDead(cfg, now, rto, p.buf))
  }

  function FlushOut(cfg: Config, cb: Cb): seq<Bytes>
    requires cfg.Valid()
  {
    if !cb.clock.updated then [] else Pack(cfg.conv, cfg.token, cfg.mtu, [], FlushMsgs(cfg, cb))
  }

  // ikcp_update: the clock is set, and a flush follows when its time has come.
  function Tick(c: Clock, now: U32): Clock {
    var ts := if c.updated then c.tsFlush else now;
    var slap := Diff(now, ts);
    Clock(now, true, if slap >= 10000 || slap < -10000 then now else ts)
  }

  predicate FlushDue(c: Clock) {
    Diff(c.current, c.tsFlush) >= 0
  }

  function NextFlush(interval: nat, c: Clock): Clock
    requires interval <= 5000
  {
    var next := Add(c.tsFlush, interval);
    c.(tsFlush := if Diff(c.current, next) >= 0 then Add(c.current, interval) else next)
  }

  // The control block with which an update flushes, when it does.
  function Ticked(cfg: Config, cb: Cb, now: U32): Cb
    requires cfg.Valid()
  {
    var c := Tick(cb.clock, now);
    cb.(clock := if FlushDue(c) then NextFlush(cfg.interval, c) else c)
  }

  function UpdateState(cfg: Config, cb: Cb, now: U32): Cb
    requires cfg.Valid()
  {
    if FlushDue(Tick(cb.clock, now)) then FlushState(cfg, Ticked(cfg, cb, now)) else Ticked(cfg, cb, now)
  }

  // ikcp_check.
  function Check(cfg: Config, cb: Cb, now: U32): U32
    requires cfg.Valid()
  {
    var buf := cb.snd.buf;
    var slap := Diff(now, cb.clock.tsFlush);
    if !cb.clock.updated then now
    else if slap >= 10000 || slap < -10000 || slap >= 0 then now
    else if exists i :: 0 <= i < |buf| && Diff(buf[i].resendts, now) <= 0 then now
    else
      SoonestTimerIs(buf, now, -slap);
      Add(now, Min(cfg.interval, SoonestTimer(buf, now, -slap)))
  }

  // The least of `bound` and the times left on the resend timers.
  function SoonestTimer(buf: seq<OutSeg>, now: U32, bound: int): int {
    if buf == [] then bound else Min(Diff(buf[0].resendts, now), SoonestTimer(buf[1..], now, bound))
  }

  lemma {:induction false} SoonestTimerIs(buf: seq<OutSeg>, now: U32, bound: int)
    ensures SoonestTimer(buf, now, bound) <= bound
    ensures forall i :: 0 <= i < |buf| ==> SoonestTimer(buf, now, bound) <= Diff(buf[i].resendts, now)
    ensures bound > 0 && (forall i :: 0 <= i < |buf| ==> Diff(buf[i].resendts, now) > 0) ==>
      SoonestTimer(buf, now, bound) > 0
  {
    if buf != [] {
      SoonestTimerIs(buf[1..], now, bound);
      assert buf == [buf[0]] + buf[1..];
    }
  }
}
