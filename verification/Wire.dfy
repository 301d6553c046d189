/** The datagram format: little-endian headers of 28 bytes, each followed by its payload,
    several of them packed into one datagram. */
module Wire {
  import opened Serial

  const OVERHEAD := 28

  const CMD_PUSH: Byte := 81
  const CMD_ACK: Byte := 82
  const CMD_WASK: Byte := 83
  const CMD_WINS: Byte := 84

  // One header with its payload. The connection identifiers are not part of it: every header
  // written or accepted carries those of the control block.
  datatype Msg = Msg(cmd: Byte, frg: Byte, wnd: U16, ts: U32, sn: U32, una: U32, data: Bytes)

  predicate KnownCmd(cmd: Byte) {
    cmd == CMD_PUSH || cmd == CMD_ACK || cmd == CMD_WASK || cmd == CMD_WINS
  }

  // A message that the encoder can be given.
  predicate WellFormed(m: Msg) {
    KnownCmd(m.cmd) && |m.data| < HALF
  }

  predicate AllWellFormed(msgs: seq<Msg>) {
    forall i :: 0 <= i < |msgs| ==> WellFormed(msgs[i])
  }

  function ByteOf(x: U32, k: nat): Byte
    requires k < 4
  {
    if k == 0 then x % 0x100
    else if k == 1 then x / 0x100 % 0x100
    else if k == 2 then x / 0x1_0000 % 0x100
    else x / 0x100_0000
  }

  function HeaderByte(conv: U32, token: U32, m: Msg, i: nat): Byte
    requires i < OVERHEAD
  {
    if i < 4 then ByteOf(conv, i)
    else if i < 8 then ByteOf(token, i - 4)
    else if i == 8 then m.cmd
    else if i == 9 then m.frg
    else if i == 10 then m.wnd % 0x100
    else if i == 11 then m.wnd / 0x100
    else if i < 16 then ByteOf(m.ts, i - 12)
    else if i < 20 then ByteOf(m.sn, i - 16)
    else if i < 24 then ByteOf(m.una, i - 20)
    else ByteOf(Wrap(|m.data|), i - 24)
  }

  function Header(conv: U32, token: U32, m: Msg): (b: Bytes)
    ensures |b| == OVERHEAD
  {
    seq(OVERHEAD, i requires 0 <= i < OVERHEAD => HeaderByte(conv, token, m, i))
  }

  function Encode(conv: U32, token: U32, m: Msg): (b: Bytes)
    ensures |b| == OVERHEAD + |m.data|
  {
    Header(conv, token, m) + m.data
  }

  function Decode16(b: Bytes, i: nat): U16
    requires i + 2 <= |b|
  {
    b[i] as int + 0x100 * b[i + 1] as int
  }

  function Decode32(b: Bytes, i: nat): U32
    requires i + 4 <= |b|
  {
    b[i] as int + 0x100 * b[i + 1] as int + 0x1_0000 * b[i + 2] as int + 0x100_0000 * b[i + 3] as int
  }

  // What the input loop makes of the front of its remaining bytes.
  datatype Front =
    | Rejected(code: int)
    | Accepted(msg: Msg, rest: Bytes)

  function TakeFront(conv: U32, token: U32, b: Bytes): (f: Front)
    requires |b| >= OVERHEAD
    ensures f.Accepted? ==> WellFormed(f.msg) && |f.rest| == |b| - OVERHEAD - |f.msg.data|
  {
    if Decode32(b, 0) != conv || Decode32(b, 4) != token then Rejected(-1)
    else
      var len := Decode32(b, 24);
      if |b| - OVERHEAD < len || Signed(len) < 0 then Rejected(-2)
      else if !KnownCmd(b[8]) then Rejected(-3)
      else
        Accepted(Msg(b[8], b[9], Decode16(b, 10), Decode32(b, 12), Decode32(b, 16), Decode32(b, 20),
                     b[OVERHEAD..OVERHEAD + len]),
                 b[OVERHEAD + len..])
  }

  // The messages the input loop acts on, in order, and the code with which it leaves.
  datatype Reading = Reading(msgs: seq<Msg>, code: int)

  function Read(conv: U32, token: U32, b: Bytes): (r: Reading)
    ensures -3 <= r.code <= 0
    ensures AllWellFormed(r.msgs)
    decreases |b|
  {
    if |b| < OVERHEAD then Reading([], 0)
    else
      match TakeFront(conv, token, b)
      case Rejected(code) => Reading([], code)
      case Accepted(msg, rest) =>
        var tail := Read(conv, token, rest);
        Reading([msg] + tail.msgs, tail.code)
  }

  // Greedy packing: a datagram is sent when the next message no longer fits in it.
  function Pack(conv: U32, token: U32, mtu: nat, filled: Bytes, msgs: seq<Msg>): (datagrams: seq<Bytes>)
    decreases |msgs|
  {
    if msgs == [] then (if filled == [] then [] else [filled])
    else
      var e := Encode(conv, token, msgs[0]);
      if |filled| + |e| > mtu then
        (if filled == [] then [] else [filled]) + Pack(conv, token, mtu, e, msgs[1..])
      else
        Pack(conv, token, mtu, filled + e, msgs[1..])
  }

  // Everything the input loop sees in a sequence of datagrams.
  function ReadAll(conv: U32, token: U32, datagrams: seq<Bytes>): seq<Msg> {
    if datagrams == [] then []
    else Read(conv, token, datagrams[0]).msgs + ReadAll(conv, token, datagrams[1..])
  }

  // Proofs

  lemma BytesOfWord(x: U32)
    ensures ByteOf(x, 0) as int + 0x100 * ByteOf(x, 1) as int + 0x1_0000 * ByteOf(x, 2) as int
          + 0x100_0000 * ByteOf(x, 3) as int == x
  {
  }

  // `b` starts with the word `x` at position `i`.
  predicate WordAt(b: Bytes, i: nat, x: U32) {
    i + 4 <= |b|
    && b[i] == ByteOf(x, 0) && b[i + 1] == ByteOf(x, 1) && b[i + 2] == ByteOf(x, 2) && b[i + 3] == ByteOf(x, 3)
  }

  predicate IsHeader(h: Bytes, conv: U32, token: U32, m: Msg)
    requires |m.data| < HALF
  {
    && |h| == OVERHEAD
    && WordAt(h, 0, conv) && WordAt(h, 4, token)
    && h[8] == m.cmd && h[9] == m.frg && h[10] == m.wnd % 0x100 && h[11] == m.wnd / 0x100
    && WordAt(h, 12, m.ts) && WordAt(h, 16, m.sn) && WordAt(h, 20, m.una) && WordAt(h, 24, |m.data|)
  }

  lemma Decode32Header(h: Bytes, tail: Bytes, i: nat, x: U32)
    requires WordAt(h, i, x)
    ensures Decode32(h + tail, i) == x
  {
    BytesOfWord(x);
  }

  lemma TakeFrontOfHeader(h: Bytes, conv: U32, token: U32, m: Msg, rest: Bytes)
    requires WellFormed(m) && IsHeader(h, conv, token, m)
    ensures TakeFront(conv, token, h + (m.data + rest)) == Accepted(m, rest)
  {
    var tail := m.data + rest;
    var b := h + tail;
    Decode32Header(h, tail, 0, conv);
    Decode32Header(h, tail, 4, token);
    Decode32Header(h, tail, 12, m.ts);
    Decode32Header(h, tail, 16, m.sn);
    Decode32Header(h, tail, 20, m.una);
    Decode32Header(h, tail, 24, |m.data|);
    assert Decode16(b, 10) == m.wnd;
    assert b[OVERHEAD..OVERHEAD + |m.data|] == m.data;
    assert b[OVERHEAD + |m.data|..] == rest;
  }

  lemma TakeFrontOfEncode(conv: U32, token: U32, m: Msg, rest: Bytes)
    requires WellFormed(m)
    ensures TakeFront(conv, token, Encode(conv, token, m) + rest) == Accepted(m, rest)
  {
    hide TakeFront;
    var h := Header(conv, token, m);
    assert IsHeader(h, conv, token, m);
    TakeFrontOfHeader(h, conv, token, m, rest);
    assert Encode(conv, token, m) + rest == h + (m.data + rest);
  }

  // `b` is read to its last byte, without an error, as exactly `msgs`.
  predicate Says(conv: U32, token: U32, b: Bytes, msgs: seq<Msg>) {
    Exact(conv, token, b) && Read(conv, token, b) == Reading(msgs, 0)
  }

  // The input loop consumes the whole datagram: no trailing bytes are left over.
  predicate Exact(conv: U32, token: U32, b: Bytes)
    decreases |b|
  {
    if |b| < OVERHEAD then b == []
    else
      var front := TakeFront(conv, token, b);
      front.Accepted? && Exact(conv, token, front.rest)
  }

  lemma TakeFrontExtended(conv: U32, token: U32, b: Bytes, e: Bytes)
    requires |b| >= OVERHEAD
    requires TakeFront(conv, token, b).Accepted?
    ensures TakeFront(conv, token, b + e)
         == Accepted(TakeFront(conv, token, b).msg, TakeFront(conv, token, b).rest + e)
  {
    var len := Decode32(b, 24);
    assert (b + e)[OVERHEAD..OVERHEAD + len] == b[OVERHEAD..OVERHEAD + len];
    assert (b + e)[OVERHEAD + len..] == b[OVERHEAD + len..] + e;
  }

  // Appending an encoded message to a datagram appends it to what the datagram says.
  lemma {:induction false} SaysAppend(conv: U32, token: U32, b: Bytes, msgs: seq<Msg>, m: Msg)
    requires WellFormed(m) && Says(conv, token, b, msgs)
    ensures Says(conv, token, b + Encode(conv, token, m), msgs + [m])
    decreases |b|
  {
    var e := Encode(conv, token, m);
    if |b| < OVERHEAD {
      assert b + e == e + [];
      TakeFrontOfEncode(conv, token, m, []);
      assert Read(conv, token, []) == Reading([], 0);
      assert msgs + [m] == [m] + [];
    } else {
      var front := TakeFront(conv, token, b);
      assert msgs == [front.msg] + msgs[1..];
      SaysAppend(conv, token, front.rest, msgs[1..], m);
      TakeFrontExtended(conv, token, b, e);
      assert [front.msg] + (msgs[1..] + [m]) == msgs + [m];
    }
  }

  // A datagram the peer accepts: between 28 and mtu bytes, and read with code 0.
  predicate Deliverable(conv: U32, token: U32, mtu: nat, b: Bytes) {
    OVERHEAD <= |b| <= mtu && Read(conv, token, b).code == 0
  }

  predicate AllDeliverable(conv: U32, token: U32, mtu: nat, datagrams: seq<Bytes>) {
    forall i :: 0 <= i < |datagrams| ==> Deliverable(conv, token, mtu, datagrams[i])
  }

  predicate Fits(mtu: nat, m: Msg) {
    WellFormed(m) && OVERHEAD + |m.data| <= mtu
  }

  predicate AllFit(mtu: nat, msgs: seq<Msg>) {
    forall i :: 0 <= i < |msgs| ==> Fits(mtu, msgs[i])
  }

  lemma Prepend(conv: U32, token: U32, mtu: nat, b: Bytes, said: seq<Msg>, tail: seq<Bytes>, rest: seq<Msg>)
    requires |b| <= mtu && Says(conv, token, b, said)
    requires AllDeliverable(conv, token, mtu, tail) && ReadAll(conv, token, tail) == rest
    ensures var datagrams := (if b == [] then [] else [b]) + tail;
      AllDeliverable(conv, token, mtu, datagrams) && ReadAll(conv, token, datagrams) == said + rest
  {
    if b == [] {
      assert [] + tail == tail;
    } else {
      assert ([b] + tail)[1..] == tail;
    }
  }

  // Packing and unpacking undo each other: every datagram has between 28 and mtu bytes and is
  // accepted, and together they say exactly the packed messages, each once and in order.
  lemma {:induction false} PackRoundTrip(conv: U32, token: U32, mtu: nat, filled: Bytes, said: seq<Msg>, msgs: seq<Msg>)
    requires AllFit(mtu, msgs)
    requires |filled| <= mtu && Says(conv, token, filled, said)
    ensures AllDeliverable(conv, token, mtu, Pack(conv, token, mtu, filled, msgs))
    ensures ReadAll(conv, token, Pack(conv, token, mtu, filled, msgs)) == said + msgs
    decreases |msgs|
  {
    if msgs == [] {
      Prepend(conv, token, mtu, filled, said, [], []);
    } else {
      var m, rest := msgs[0], msgs[1..];
      assert Fits(mtu, m);
      var e := Encode(conv, token, m);
      assert said + [m] + rest == said + ([m] + rest) == said + msgs by { assert [m] + rest == msgs; }
      if |filled| + |e| > mtu {
        SaysOne(conv, token, m);
        PackRoundTrip(conv, token, mtu, e, [m], rest);
        Prepend(conv, token, mtu, filled, said, Pack(conv, token, mtu, e, rest), [m] + rest);
      } else {
        SaysAppend(conv, token, filled, said, m);
        PackRoundTrip(conv, token, mtu, filled + e, said + [m], rest);
      }
    }
  }

  lemma SaysOne(conv: U32, token: U32, m: Msg)
    requires WellFormed(m)
    ensures Says(conv, token, Encode(conv, token, m), [m])
  {
    TakeFrontOfEncode(conv, token, m, []);
    assert Encode(conv, token, m) + [] == Encode(conv, token, m);
  }
}
