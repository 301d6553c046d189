/** What the calls that send and receive return. */
module Codes {
  import opened Arithmetic
  import opened Serial
  import opened Wire
  import opened ControlBlock
  import opened Endpoint
  import opened Network

  lemma CountIsCeiling(len: nat, mss: nat)
    requires mss > 0
    ensures FragCount(len, mss) < WND_RCV <==> len <= 127 * mss
  {
    if len > mss {
      QuotientBounds(len + mss - 1, mss);
      var n := (len + mss - 1) / mss;
      if n < WND_RCV {
        MulMonotone(n, 127, mss);
      } else {
        MulMonotone(WND_RCV, n, mss);
      }
    }
  }

  // A message is accepted if and only if 127 segments can hold it, and refused with -2 otherwise. An
  // accepted one joins the end of the send queue, a refused one changes nothing.
  lemma {:induction false} SendCodes(cfg: Config, cb: Cb, m: Bytes)
    requires cfg.Valid()
    ensures var (r, code) := Send(cfg, cb, m);
      && code == (if |m| <= 127 * cfg.Mss() then 0 else -2)
      && (code != 0 ==> r == cb)
      && (code == 0 ==>
            && r == cb.(snd := cb.snd.(queue := r.snd.queue)) && cb.snd.queue <= r.snd.queue
            && Join(r.snd.queue[|cb.snd.queue|..]) == m && CountsDown(r.snd.queue[|cb.snd.queue|..], cfg.Mss()))
  {
    var mss := cfg.Mss();
    CountIsCeiling(|m|, mss);
    if FragCount(|m|, mss) < WND_RCV {
      var fs := Fragments(m, mss);
      JoinFragments(m, mss);
      FragmentsCountDown(m, mss);
      assert (cb.snd.queue + fs)[|cb.snd.queue|..] == fs;
    }
  }

  // In every run, a receiver with room for `len` bytes, or one that peeks with that room, learns the
  // state of the next message that the peer had accepted: -1 if none of it is ready, -2 if some
  // fragment of it is missing, -3 if it is too long; otherwise it gets the message and its length. An
  // error changes nothing.
  lemma {:induction false} RecvCodes(ca: Config, cb: Config, steps: seq<Step>, n: Net, len: int)
    requires RunOf(ca, cb, steps, n)
    ensures var q := n.b.cb.rcv.queue;
      var r := Recv(n.b.cfg, n.b.cb, len);
      && (q == [] ==> r.code == -1)
      && (q != [] ==>
            && |n.b.delivered| < |n.a.accepted|
            && var m := n.a.accepted[|n.b.delivered|];
               var room := if len < 0 then 0 - len else len;
               if |q| < FragCount(|m|, n.a.cfg.Mss()) then r.code == -2
               else if |m| > room then r.code == -3
               else r.code == |m| && r.data == m)
      && (r.code < 0 ==> r.data == [] && r.cb == n.b.cb)
  {
    Reachable(ca, cb, steps, n);
    if n.b.cb.rcv.queue != [] {
      HeadIsNextMessage(n.a.accepted, n.b.delivered, n.a.cfg.Mss(), n.b.cb.rcv);
    }
  }
}
