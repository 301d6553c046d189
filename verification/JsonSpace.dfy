/** What may stand between the tokens of a JSON text: the blanks of section 2 of RFC 8259 and, when
    they are allowed, the comments of C and C++; and that the reader skips exactly these. */
module JsonSpace {
  import opened Sequences
  import opened Serial
  import opened JsonText

  datatype Filler = Blank(c: Byte) | Block(body: Bytes) | Line(body: Bytes, ended: bool)

  type Gap = seq<Filler>

  // A block comment ends at the first star that a slash follows, a line comment at its line feed. No
  // comment holds the character 0, which ends the text.
  predicate FillerOk(comments: bool, x: Filler) {
    match x
    case Blank(c) => c == 0x20 || c == 0x09 || c == 0x0A || c == 0x0D
    case Block(body) => comments && 0 !in body && NoClose(body)
    case Line(body, _) => comments && 0 !in body && 0x0A !in body
  }

  predicate NoClose(body: Bytes) {
    forall k :: 0 <= k < |body| - 1 ==> !(body[k] == 42 && body[k + 1] == 47)
  }

  // Only at the end of the text may a line comment lack its line feed.
  predicate GapOk(comments: bool, g: Gap, atEnd: bool) {
    forall k :: 0 <= k < |g| ==>
      FillerOk(comments, g[k]) && (g[k].Line? && !g[k].ended ==> atEnd && k == |g| - 1)
  }

  // The text of a filler, and what follows it.
  function FillerText(x: Filler, tail: Bytes): Bytes {
    match x
    case Blank(c) => [c] + tail
    case Block(body) => [47, 42] + (body + ([42, 47] + tail))
    case Line(body, ended) => [47, 47] + (body + if ended then [10] + tail else tail)
  }

  function GapText(g: Gap, tail: Bytes): Bytes {
    if g == [] then tail else FillerText(g[0], GapText(g[1..], tail))
  }

  // Nothing that could be skipped begins here.
  predicate AtToken(comments: bool, s: Bytes) {
    s == [] || (s[0] != 0x20 && s[0] != 0x09 && s[0] != 0x0A && s[0] != 0x0D && (comments ==> s[0] != 47))
  }

  predicate Ends(s: Bytes) {
    s == [] || s[0] == 0
  }

  // Skipping

  lemma {:induction false} BlockEnds(body: Bytes, tail: Bytes)
    requires 0 !in body && NoClose(body)
    ensures SkipBlock(body + ([42, 47] + tail)) == Skipped(tail)
  {
    var s := body + ([42, 47] + tail);
    if body == [] {
      assert s == [42, 47] + tail && s[1..] == [47] + tail && s[2..] == tail;
    } else {
      var rest := body[1..];
      assert s[1..] == rest + ([42, 47] + tail) && s[0] == body[0];
      assert body[0] in body && (rest != [] ==> rest[0] == body[1]);
      forall k | 0 <= k < |rest| - 1 ensures !(rest[k] == 42 && rest[k + 1] == 47) {
        assert rest[k] == body[k + 1];
      }
      BlockEnds(rest, tail);
      assert !(s[0] == STAR && Peek(s[1..]) == SLASH);
    }
  }

  lemma {:induction false} LineEnds(body: Bytes, ended: bool, tail: Bytes)
    requires 0 !in body && 0x0A !in body && (!ended ==> Ends(tail))
    ensures SkipLine(body + if ended then [10] + tail else tail) == tail
  {
    var s := body + if ended then [10] + tail else tail;
    if body == [] {
      assert s == if ended then [10] + tail else tail;
      assert ended ==> s[1..] == tail;
    } else {
      assert s[1..] == body[1..] + (if ended then [10] + tail else tail) && s[0] == body[0];
      assert body[0] in body;
      LineEnds(body[1..], ended, tail);
    }
  }

  // A filler is skipped.
  lemma {:induction false} SkipsFiller(f: Flags, x: Filler, tail: Bytes)
    requires FillerOk(f.comments, x) && (x.Line? && !x.ended ==> Ends(tail))
    ensures Skip(f, FillerText(x, tail)) == Skip(f, tail)
  {
    var s := FillerText(x, tail);
    match x
    case Blank(c) =>
      assert s[1..] == tail && SkipSpace(s) == SkipSpace(tail);
    case Block(body) =>
      assert s[1..][1..] == body + ([42, 47] + tail) && SkipSpace(s) == s;
      BlockEnds(body, tail);
    case Line(body, ended) =>
      assert s[1..][1..] == body + (if ended then [10] + tail else tail) && SkipSpace(s) == s;
      LineEnds(body, ended, tail);
  }

  // Everything that may stand between two tokens is skipped.
  lemma {:induction false} SkipsGap(f: Flags, g: Gap, tail: Bytes)
    requires GapOk(f.comments, g, Ends(tail)) && AtToken(f.comments, tail)
    ensures Skip(f, GapText(g, tail)) == Skipped(tail)
  {
    if g != [] {
      SkipsGap(f, g[1..], tail);
      SkipsFiller(f, g[0], GapText(g[1..], tail));
    }
  }

  // And nothing else is.

  lemma {:induction false} BlockIs(s: Bytes) returns (body: Bytes)
    requires SkipBlock(s).Skipped?
    ensures 0 !in body && NoClose(body) && s == body + ([42, 47] + SkipBlock(s).rest)
    ensures body != [] && body[0] == 47 ==> s[0] == 47
  {
    if s[0] == STAR && Peek(s[1..]) == SLASH {
      body := [];
      assert s == [] + ([42, 47] + s[2..]);
    } else {
      var rest := BlockIs(s[1..]);
      body := [s[0]] + rest;
      assert rest != [] && rest[0] == 47 ==> s[1] == 47;
    }
  }

  lemma {:induction false} LineIs(s: Bytes) returns (body: Bytes, ended: bool)
    ensures 0 !in body && 0x0A !in body && (!ended ==> Ends(SkipLine(s)))
    ensures s == body + if ended then [10] + SkipLine(s) else SkipLine(s)
  {
    if Peek(s) == 0 {
      body, ended := [], false;
      assert s == [] + s;
    } else if s[0] == LF {
      body, ended := [], true;
      assert s == [] + ([10] + s[1..]);
    } else {
      var rest, e := LineIs(s[1..]);
      body, ended := [s[0]] + rest, e;
    }
  }

  lemma {:induction false} BlanksAre(comments: bool, s: Bytes) returns (g: Gap)
    ensures GapOk(comments, g, false) && s == GapText(g, SkipSpace(s))
    ensures SkipSpace(s) == [] || !IsSpace(SkipSpace(s)[0])
  {
    if s != [] && IsSpace(s[0]) {
      var rest := BlanksAre(comments, s[1..]);
      g := [Blank(s[0])] + rest;
      assert g[1..] == rest;
    } else {
      g := [];
    }
  }

  lemma {:induction false} GapAppend(g: Gap, h: Gap, tail: Bytes)
    ensures GapText(g + h, tail) == GapText(g, GapText(h, tail))
  {
    if g == [] {
      assert g + h == h;
    } else {
      assert (g + h)[1..] == g[1..] + h;
      GapAppend(g[1..], h, tail);
    }
  }

  lemma {:induction false} GapIs(f: Flags, s: Bytes) returns (g: Gap)
    requires Skip(f, s).Skipped?
    ensures var rest := Skip(f, s).rest;
      GapOk(f.comments, g, Ends(rest)) && AtToken(f.comments, rest) && s == GapText(g, rest)
    decreases |s|
  {
    var w := SkipSpace(s);
    g := BlanksAre(f.comments, s);
    if f.comments && Peek(w) == SLASH {
      var x, rest := CommentIs(w);
      var more := GapIs(f, rest);
      var h := [x] + more;
      assert h[1..] == more;
      GapAppend(g, h, Skip(f, s).rest);
      g := g + h;
    }
  }

  lemma {:induction false} CommentIs(w: Bytes) returns (x: Filler, rest: Bytes)
    requires Peek(w) == SLASH && SkipComment(w[1..]).Skipped?
    ensures rest == SkipComment(w[1..]).rest && FillerOk(true, x) && w == FillerText(x, rest)
    ensures x.Line? && !x.ended ==> Ends(rest)
  {
    var t := w[2..];
    rest := SkipComment(w[1..]).rest;
    if Peek(w[1..]) == STAR {
      var body := BlockIs(t);
      x := Block(body);
      assert w == [47, 42] + t;
    } else {
      var body, ended := LineIs(t);
      x := Line(body, ended);
      assert w == [47, 47] + t;
    }
  }
}
