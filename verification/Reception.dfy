/** Which bytes a control block takes in: only headers that carry its own identifiers, whose length
    fits what is left, and whose command is known. */
module Reception {
  import opened Serial
  import opened Wire
  import opened ControlBlock

  // Four bytes are one word, and no other.
  lemma WordIs(b: Bytes, i: nat, x: U32)
    requires i + 4 <= |b|
    ensures WordAt(b, i, x) <==> Decode32(b, i) == x
  {
    var y := Decode32(b, i);
    BytesOfWord(x);
    BytesOfWord(y);
    WordOfBytes(b[i], b[i + 1], b[i + 2], b[i + 3], y);
  }

  lemma WordOfBytes(b0: Byte, b1: Byte, b2: Byte, b3: Byte, x: U32)
    requires x == b0 as int + 0x100 * b1 as int + 0x1_0000 * b2 as int + 0x100_0000 * b3 as int
    ensures ByteOf(x, 0) == b0 && ByteOf(x, 1) == b1 && ByteOf(x, 2) == b2 && ByteOf(x, 3) == b3
  {
    var high: nat := b1 as int + 0x100 * b2 as int + 0x1_0000 * b3 as int;
    assert x / 0x100 == high && x % 0x100 == b0;
    assert x / 0x1_0000 == b2 as int + 0x100 * b3 as int;
  }

  lemma SomeWord(b: Bytes, i: nat) returns (x: U32)
    requires i + 4 <= |b|
    ensures WordAt(b, i, x)
  {
    x := Decode32(b, i);
    WordIs(b, i, x);
  }

  // The header starts with the identifiers of the connection.
  predicate Ours(conv: U32, token: U32, b: Bytes) {
    WordAt(b, 0, conv) && WordAt(b, 4, token)
  }

  // The fields of a message where its header has them: one byte each for command and fragment, two
  // for the window, four each for timestamp, number, acknowledgement and length, low byte first;
  // then the payload.
  predicate MessageAt(b: Bytes, m: Msg, len: U32) {
    && OVERHEAD + len <= |b| && b[8] == m.cmd && b[9] == m.frg && m.wnd == b[10] as int + 0x100 * b[11] as int
    && WordAt(b, 12, m.ts) && WordAt(b, 16, m.sn) && WordAt(b, 20, m.una) && WordAt(b, 24, len)
    && m.data == b[OVERHEAD..OVERHEAD + len]
  }

  // What the input loop makes of any bytes that hold a header: -1 for a header of another
  // connection, else -2 for a length that is negative or more than what is left, else -3 for an
  // unknown command; otherwise the message is taken, and reading goes on behind it.
  lemma {:induction false} ReadByHeader(conv: U32, token: U32, b: Bytes, len: U32)
    requires |b| >= OVERHEAD && WordAt(b, 24, len)
    ensures var r := Read(conv, token, b);
      if !Ours(conv, token, b) then r == Reading([], -1)
      else if len > |b| - OVERHEAD || len >= HALF then r == Reading([], -2)
      else if !(81 <= b[8] <= 84) then r == Reading([], -3)
      else
        var tail := Read(conv, token, b[OVERHEAD + len..]);
        r.msgs != [] && MessageAt(b, r.msgs[0], len) && r.msgs[1..] == tail.msgs && r.code == tail.code
  {
    WordIs(b, 0, conv);
    WordIs(b, 4, token);
    WordIs(b, 24, len);
    var front := TakeFront(conv, token, b);
    if front.Accepted? {
      WordIs(b, 12, front.msg.ts);
      WordIs(b, 16, front.msg.sn);
      WordIs(b, 20, front.msg.una);
      var tail := Read(conv, token, front.rest);
      assert Read(conv, token, b) == Reading([front.msg] + tail.msgs, tail.code);
    }
  }

  // Fewer bytes than a header hold nothing.
  lemma ReadNothing(conv: U32, token: U32, b: Bytes)
    requires |b| < OVERHEAD
    ensures Read(conv, token, b) == Reading([], 0)
  {
  }

  // Datagrams of other connections

  lemma {:induction false} ForeignHeader(conv: U32, token: U32, conv2: U32, token2: U32, m: Msg, rest: Bytes)
    requires conv2 != conv || token2 != token
    ensures !Ours(conv, token, Encode(conv2, token2, m) + rest)
  {
    var b := Encode(conv2, token2, m) + rest;
    assert WordAt(b, 0, conv2) && WordAt(b, 4, token2);
    WordIs(b, 0, conv);
    WordIs(b, 0, conv2);
    WordIs(b, 4, token);
    WordIs(b, 4, token2);
  }

  // A header of another connection ends the reading with -1, whatever follows it.
  lemma {:induction false} ForeignRefused(conv: U32, token: U32, conv2: U32, token2: U32, m: Msg, rest: Bytes)
    requires conv2 != conv || token2 != token
    ensures Read(conv, token, Encode(conv2, token2, m) + rest) == Reading([], -1)
  {
    var b := Encode(conv2, token2, m) + rest;
    var len := SomeWord(b, 24);
    ForeignHeader(conv, token, conv2, token2, m, rest);
    ReadByHeader(conv, token, b, len);
  }

  // What came before it stays read.
  lemma {:induction false} ForeignAfter(conv: U32, token: U32, b: Bytes, msgs: seq<Msg>, conv2: U32, token2: U32,
      m: Msg, rest: Bytes)
    requires Says(conv, token, b, msgs) && (conv2 != conv || token2 != token)
    ensures Read(conv, token, b + (Encode(conv2, token2, m) + rest)) == Reading(msgs, -1)
    decreases |b|
  {
    var e := Encode(conv2, token2, m) + rest;
    if |b| < OVERHEAD {
      assert b + e == e;
      ForeignRefused(conv, token, conv2, token2, m, rest);
    } else {
      var front := TakeFront(conv, token, b);
      assert msgs == [front.msg] + msgs[1..];
      TakeFrontExtended(conv, token, b, e);
      ForeignAfter(conv, token, front.rest, msgs[1..], conv2, token2, m, rest);
    }
  }

  // ikcp_input refuses bytes that are not of this connection, and changes nothing; so it does with
  // too few bytes, a bad length and an unknown command.
  lemma {:induction false} RefusedUnchanged(cfg: Config, cb: Cb, b: Bytes)
    requires cfg.Valid() && |b| < HALF
    ensures |b| < OVERHEAD ==> Input(cfg, cb, b) == (cb, -1)
    ensures |b| >= OVERHEAD && !Ours(cfg.conv, cfg.token, b) ==> Input(cfg, cb, b) == (cb, -1)
    ensures forall len: U32 :: |b| >= OVERHEAD && Ours(cfg.conv, cfg.token, b) && WordAt(b, 24, len) ==>
      if len > |b| - OVERHEAD || len >= HALF then Input(cfg, cb, b) == (cb, -2)
      else !(81 <= b[8] <= 84) ==> Input(cfg, cb, b) == (cb, -3)
  {
    if |b| >= OVERHEAD {
      var len := SomeWord(b, 24);
      ReadByHeader(cfg.conv, cfg.token, b, len);
      forall other: U32 | WordAt(b, 24, other) ensures other == len {
        WordIs(b, 24, other);
        WordIs(b, 24, len);
      }
    }
  }

  // The datagrams of another connection, or another session of it, have no effect.
  lemma {:induction false} ForeignUnchanged(cfg: Config, cb: Cb, conv2: U32, token2: U32, m: Msg, rest: Bytes)
    requires cfg.Valid() && (conv2 != cfg.conv || token2 != cfg.token)
    requires |Encode(conv2, token2, m) + rest| < HALF
    ensures Input(cfg, cb, Encode(conv2, token2, m) + rest) == (cb, -1)
  {
    ForeignHeader(cfg.conv, cfg.token, conv2, token2, m, rest);
    RefusedUnchanged(cfg, cb, Encode(conv2, token2, m) + rest);
  }

  // How many bytes of a datagram ikcp_input reads as messages and why it stops decides its code.
  lemma InputCode(cfg: Config, cb: Cb, b: Bytes)
    requires cfg.Valid() && OVERHEAD <= |b| < HALF
    ensures Input(cfg, cb, b).1 == Read(cfg.conv, cfg.token, b).code
  {
    hide Read, ApplyAll, ParseFastack, Grow, NewestAck;
  }
}
