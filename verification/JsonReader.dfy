/** The reader as the code has it: a cursor advanced step by step, a handler told one event at a
    time, recursive parsing methods, and a loop over a state and a stack. Every method is proved
    against the functions of `JsonText` and `JsonGrammar`. */
module JsonReader {
  import opened Serial
  import opened JsonText
  import opened JsonGrammar

  datatype ParseError =
    | NoError
    | DocumentEmpty
    | DocumentRootNotSingular
    | ValueInvalid
    | ObjectMissName
    | ObjectMissColon
    | ObjectMissCommaOrCurlyBracket
    | ArrayMissCommaOrSquareBracket
    | StringUnicodeEscapeInvalidHex
    | StringUnicodeSurrogateInvalid
    | StringEscapeInvalid
    | StringMissQuotationMark
    | NumberTooBig
    | NumberMissFraction
    | NumberMissExponent
    | UnspecificSyntaxError

  // The value `i` with one more digit.
  function Appended(i: nat, c: Byte): int {
    10 * i + c as int - 48
  }

  // The first `n` characters of `s` are digits with the value `i`.
  predicate HasRead(s: Bytes, n: nat, i: nat) {
    n <= DigitCount(s) && i == Decimal(s[..n])
  }

  lemma ReadStep(s: Bytes, n: nat, i: nat)
    requires HasRead(s, n, i) && n < DigitCount(s) && IsDigit(s[n])
    ensures Appended(i, s[n]) >= 0 && HasRead(s, n + 1, Appended(i, s[n]))
  {
    assert s[..n + 1][..n] == s[..n];
  }

  // Behind the digits counted there is no digit, and behind fewer there is one.
  lemma {:induction false} DigitsGoOn(s: Bytes, n: nat)
    requires n <= DigitCount(s)
    ensures IsDigit(Peek(s[n..])) <==> n < DigitCount(s)
    ensures DigitCount(s) == n + DigitCount(s[n..])
  {
    if n > 0 {
      DigitsGoOn(s[1..], n - 1);
      assert s[1..][n - 1..] == s[n..];
    } else {
      assert s[0..] == s;
    }
  }

  // A prefix of the digits that is already too large makes the whole too large.
  lemma {:induction false} StillTooLarge(s: Bytes, n: nat, i: nat, bound: nat)
    requires HasRead(s, n, i) && n < DigitCount(s) && Appended(i, s[n]) > bound
    ensures Decimal(s[..DigitCount(s)]) > bound
  {
    DigitsGoOn(s, n);
    assert Peek(s[n..]) == s[n];
    ReadStep(s, n, i);
    var h := DigitCount(s);
    assert s[..h] == s[..n + 1] + s[n + 1..h];
    DecimalGrows(s[..n + 1], s[n + 1..h]);
  }

  // The largest magnitude that the 32-bit types hold.
  function Bound32(minus: bool): nat {
    if minus then 0x8000_0000 else 0xFFFF_FFFF
  }

  // What the reader knows of a number when its head has the value `v`.
  predicate HeadValue(minus: bool, i: nat, use64: bool, useDouble: bool, special: bool, v: nat) {
    if special then !useDouble
    else useDouble == !Fits64(minus, v) && (!useDouble ==> i == v && use64 == (v > Bound32(minus)))
  }

  lemma DropDrop(s: Bytes, a: nat, b: nat)
    requires a + b <= |s|
    ensures s[a..][b..] == s[a + b..]
  {
  }

  lemma {:induction false} NumberBad(f: Flags, s: Bytes, minus: bool, u: Bytes)
    requires minus == (Peek(s) == MINUS) && u == (if minus then s[1..] else s) && ShapeOf(f, u).BadShape?
    ensures Number(f, s) == BadNumber
  {
  }

  lemma {:induction false} NumberGood(f: Flags, s: Bytes, minus: bool, u: Bytes, p: Shape, literal: Bytes, rest: Bytes)
    requires minus == (Peek(s) == MINUS) && u == (if minus then s[1..] else s) && p == ShapeOf(f, u) && p.Shape?
    requires literal == s[..|s| - |u| + p.length] && rest == u[p.length..]
    ensures Number(f, s) == Classify(f, minus, p.special, p.head == p.length, Decimal(u[..p.head]), literal, rest)
  {
    hide ShapeOf, Classify, Decimal;
    assert Number(f, s) == Unsigned(f, minus, s, u);
  }

  // The parts of a number that starts at one position of a text, its sign ending at another.
  lemma Slices(text: Bytes, start: nat, after: nat, n: nat, minus: bool, s: Bytes, u: Bytes)
    requires start <= after && after + n <= |text| && after == (if minus then start + 1 else start)
    requires s == text[start..] && u == text[after..]
    ensures |u| <= |s| && n <= |u| && u == if minus then s[1..] else s
    ensures s[..|s| - |u| + n] == text[start..after + n] && u[n..] == text[after + n..]
  {
  }

  // The same for a number between two positions of a text, its sign ending at `after`.
  lemma {:induction false} NumberAt(f: Flags, text: Bytes, start: nat, after: nat, end: nat, minus: bool, p: Shape)
    requires start <= after <= end <= |text| && minus == (Peek(text[start..]) == MINUS)
    requires after == (if minus then start + 1 else start) && p == ShapeOf(f, text[after..]) && p.Shape?
    requires end == after + p.length
    ensures Number(f, text[start..]) ==
      Classify(f, minus, p.special, p.head == p.length, Decimal(text[after..][..p.head]), text[start..end], text[end..])
  {
    hide Number, ShapeOf, Classify, Decimal;
    Slices(text, start, after, p.length, minus, text[start..], text[after..]);
    NumberGood(f, text[start..], minus, text[after..], p, text[start..end], text[end..]);
  }

  // The frames of the automaton: the outermost resumes at the start, every other in a member or an
  // element; and inside an object or an array there is one.
  predicate Stacked(st: State, stack: seq<Frame>) {
    && (stack == [] <==> st.Start? || st.Finish?)
    && !st.Error? && !st.ObjectFinish? && !st.ArrayFinish? && !st.Single?
    && forall i :: 0 <= i < |stack| ==>
         if i == |stack| - 1 then stack[i].resume.Start? else stack[i].resume.MemberValue? || stack[i].resume.Element?
  }

  class Reader {
    const flags: Flags
    const text: Bytes
    var pos: nat
    var error: ParseError
    var events: seq<Event>
    var stack: seq<Frame>

    constructor (f: Flags, t: Bytes)
      ensures flags == f && text == t && Ready() && Rest() == t && events == [] && stack == []
    {
      flags := f;
      text := t;
      pos := 0;
      error := NoError;
      events := [];
      stack := [];
    }

    predicate InText()
      reads `pos
    {
      pos <= |text|
    }

    predicate Ready()
      reads `pos, `error
    {
      InText() && error.NoError?
    }

    // What has not been taken yet.
    function Rest(): Bytes
      requires InText()
      reads `pos
    {
      text[pos..]
    }

    // The outcome `total` of a part of the text that started after the events `start`: what is left
    // of it is `left`.
    predicate Owes(start: seq<Event>, total: Outcome, left: Outcome)
      reads `events
    {
      events + left.events == start + total.events && left.ok == total.ok && left.rest == total.rest
    }

    // The part of the text with outcome `total` has been parsed.
    predicate Done(start: seq<Event>, total: Outcome)
      reads `pos, `error, `events
    {
      && InText() && events == start + total.events
      && (if total.ok then error.NoError? && Rest() == total.rest else !error.NoError?)
    }

    // The stream

    function Peek(): Byte
      requires InText()
      reads `pos
      ensures Peek() == JsonText.Peek(Rest())
    {
      if pos < |text| then text[pos] else 0
    }

    method Take() returns (c: Byte)
      requires InText() && Rest() != []
      modifies `pos
      ensures InText() && c == old(Peek()) && Rest() == old(Rest())[1..]
    {
      c := text[pos];
      pos := pos + 1;
    }

    method Consume(wanted: Byte) returns (taken: bool)
      requires InText() && wanted != 0
      modifies `pos
      ensures InText() && taken == (old(Peek()) == wanted)
      ensures Rest() == if taken then old(Rest())[1..] else old(Rest())
    {
      taken := Peek() == wanted;
      if taken {
        pos := pos + 1;
      }
    }

    // White space and comments

    method SkipWhitespace()
      requires InText()
      modifies `pos
      ensures InText() && Rest() == SkipSpace(old(Rest()))
    {
      while pos < |text| && IsSpace(text[pos])
        invariant InText() && SkipSpace(Rest()) == SkipSpace(old(Rest()))
      {
        pos := pos + 1;
      }
    }

    // The rest of a block comment.
    method SkipToCommentEnd()
      requires Ready()
      modifies `pos, `error
      ensures InText()
      ensures var r := SkipBlock(old(Rest()));
        if r.Skipped? then error.NoError? && Rest() == r.rest else !error.NoError?
    {
      while true
        invariant Ready() && SkipBlock(Rest()) == SkipBlock(old(Rest()))
        decreases |text| - pos
      {
        if Peek() == 0 {
          error := UnspecificSyntaxError;
          return;
        }
        var star := Consume(STAR);
        if star {
          var slash := Consume(SLASH);
          if slash {
            return;
          }
        } else {
          var _ := Take();
        }
      }
    }

    method SkipToLineEnd()
      requires InText()
      modifies `pos
      ensures InText() && Rest() == SkipLine(old(Rest()))
    {
      while Peek() != 0
        invariant InText() && SkipLine(Rest()) == SkipLine(old(Rest()))
        decreases |text| - pos
      {
        var c := Take();
        if c == LF {
          return;
        }
      }
    }

    // A comment whose first slash has been taken.
    method SkipRestOfComment()
      requires Ready()
      modifies `pos, `error
      ensures InText()
      ensures var r := SkipComment(old(Rest()));
        if r.Skipped? then error.NoError? && Rest() == r.rest else !error.NoError?
    {
      var block := Consume(STAR);
      if block {
        SkipToCommentEnd();
      } else {
        var line := Consume(SLASH);
        if line {
          SkipToLineEnd();
        } else {
          error := UnspecificSyntaxError;
        }
      }
    }

    method SkipWhitespaceAndComments()
      requires Ready()
      modifies `pos, `error
      ensures InText()
      ensures var r := Skip(flags, old(Rest()));
        if r.Skipped? then error.NoError? && Rest() == r.rest else !error.NoError?
    {
      ghost var s := Rest();
      SkipWhitespace();
      if !flags.comments {
        return;
      }
      SkipTwice(s);
      while true
        invariant Ready() && SkipSpace(Rest()) == Rest() && Skip(flags, Rest()) == Skip(flags, s)
        decreases |text| - pos
      {
        var comment := Consume(SLASH);
        if !comment {
          return;
        }
        SkipRestOfComment();
        if !error.NoError? {
          return;
        }
        SkipTwice(Rest());
        SkipWhitespace();
      }
    }

    static lemma {:induction false} SkipTwice(s: Bytes)
      ensures SkipSpace(SkipSpace(s)) == SkipSpace(s)
    {
      if s != [] && IsSpace(s[0]) {
        SkipTwice(s[1..]);
      }
    }

    // Names

    method ConsumeWord(word: Bytes) returns (all: bool)
      requires InText() && 0 !in word
      modifies `pos
      ensures InText() && all == (Matched(word, old(Rest())) == |word|)
      ensures Rest() == old(Rest())[Matched(word, old(Rest()))..]
    {
      ghost var s := Rest();
      var i := 0;
      while i < |word|
        invariant 0 <= i <= |word| && i <= |s| && InText() && Rest() == s[i..]
        invariant Matched(word, s) == i + Matched(word[i..], Rest())
      {
        var taken := Consume(word[i]);
        if !taken {
          return false;
        }
        assert word[i..][1..] == word[i + 1..];
        i := i + 1;
      }
      all := true;
    }

    static lemma {:induction false} MatchedAll(word: Bytes, s: Bytes)
      ensures Matched(word, s) == |word| <==> word <= s
    {
      if word != [] && s != [] && word[0] == s[0] {
        MatchedAll(word[1..], s[1..]);
        if word[1..] <= s[1..] {
          assert word == [word[0]] + word[1..] && s == [s[0]] + s[1..];
        }
      }
    }

    method ParseName(word: Bytes, e: Event)
      requires Ready() && 0 !in word
      modifies `pos, `error, `events
      ensures Done(old(events), Name(old(Rest()), word, e))
    {
      MatchedAll(word, Rest());
      var all := ConsumeWord(word);
      if all {
        events := events + [e];
      } else {
        error := ValueInvalid;
      }
    }

    // Strings

    method ParseHex4() returns (point: nat)
      requires Ready()
      modifies `pos, `error
      ensures InText() && error.NoError? == HasHex4(old(Rest()))
      ensures error.NoError? ==> point == Hex4(old(Rest())) && Rest() == old(Rest())[4..]
    {
      ghost var s := Rest();
      point := 0;
      var i := 0;
      while i < 4
        invariant 0 <= i <= 4 && i <= |s| && Ready() && Rest() == s[i..]
        invariant forall j :: 0 <= j < i ==> HexValue(s[j]) < 16
        invariant i == 1 ==> point == HexValue(s[0])
        invariant i == 2 ==> point == 0x10 * HexValue(s[0]) + HexValue(s[1])
        invariant i == 3 ==> point == 0x100 * HexValue(s[0]) + 0x10 * HexValue(s[1]) + HexValue(s[2])
        invariant i == 0 ==> point == 0
        invariant i == 4 ==> HasHex4(s) && point == Hex4(s)
      {
        var c := Peek();
        if HexValue(c) == 16 {
          error := StringUnicodeEscapeInvalidHex;
          return;
        }
        point := 16 * point + HexValue(c);
        c := Take();
        i := i + 1;
      }
    }

    // What follows a backslash and `u`.
    method ParseUnicode() returns (point: nat)
      requires Ready()
      modifies `pos, `error
      ensures InText()
      ensures var r := UnicodeEscape(old(Rest()));
        if r.CodePoint? then error.NoError? && point == r.point && Rest() == r.rest else !error.NoError?
    {
      ghost var s := Rest();
      point := ParseHex4();
      if !error.NoError? {
        return;
      }
      if 0xD800 <= point <= 0xDBFF {
        assert forall i :: 0 <= i < |s| - 4 ==> s[4..][i] == s[4 + i];
        var taken := Consume(BACKSLASH);
        if taken {
          taken := Consume(117);
        }
        if !taken {
          error := StringUnicodeSurrogateInvalid;
          return;
        }
        assert Rest() == s[6..];
        var low := ParseHex4();
        if !error.NoError? {
          return;
        }
        if low < 0xDC00 || low > 0xDFFF {
          error := StringUnicodeSurrogateInvalid;
          return;
        }
        point := (point - 0xD800) * 0x400 + (low - 0xDC00) + 0x1_0000;
      }
    }

    // The characters of a string up to its closing quote, decoded.
    method ParseStringToStream() returns (out: Bytes)
      requires Ready()
      modifies `pos, `error
      ensures InText()
      ensures var d := Chars(old(Rest()));
        if d.Decoded? then error.NoError? && out == d.text && Rest() == d.rest else !error.NoError?
    {
      ghost var s := Rest();
      out := [];
      while true
        invariant Ready() && Prepend(out, Chars(Rest())) == Chars(s)
        decreases |text| - pos
      {
        var c := Peek();
        if c == BACKSLASH {
          out := ParseEscape(out);
          if !error.NoError? {
            return;
          }
        } else if c == QUOTE {
          c := Take();
          assert out + [] == out;
          return;
        } else if c < 0x20 {
          error := if c == 0 then StringMissQuotationMark else StringEscapeInvalid;
          return;
        } else {
          PrependTwice(out, [c], Chars(Rest()[1..]));
          c := Take();
          out := out + [c];
        }
      }
    }

    static lemma PrependTwice(a: Bytes, b: Bytes, d: Decoded)
      ensures Prepend(a, Prepend(b, d)) == Prepend(a + b, d)
    {
      if d.Decoded? {
        assert a + (b + d.text) == a + b + d.text;
      }
    }

    // One escape of a string, from its backslash on.
    method ParseEscape(out0: Bytes) returns (out: Bytes)
      requires Ready() && Peek() == BACKSLASH
      modifies `pos, `error
      ensures InText() && (error.NoError? ==> |Rest()| < |old(Rest())|)
      ensures error.NoError? ==> Prepend(out, Chars(Rest())) == Prepend(out0, Chars(old(Rest())))
      ensures !error.NoError? ==> Chars(old(Rest())) == BadString
    {
      out := out0;
      ghost var s := Rest();
      var c := Take();
      var e := Peek();
      assert |s| > 1 ==> s[1..][1..] == s[2..];
      if Unescape(e) != 0 {
        c := Take();
        out := out + [Unescape(e)];
        PrependTwice(out0, [Unescape(e)], Chars(Rest()));
      } else if e == 117 {
        c := Take();
        var point := ParseUnicode();
        if error.NoError? {
          out := out + Utf8(point);
          PrependTwice(out0, Utf8(point), Chars(Rest()));
        }
      } else {
        error := StringEscapeInvalid;
      }
    }

    method ParseString(isKey: bool)
      requires Ready() && Peek() == QUOTE
      modifies `pos, `error, `events
      ensures Done(old(events), Quoted(old(Rest()), isKey))
    {
      var c := Take();
      var out := ParseStringToStream();
      if error.NoError? {
        events := events + [if isKey then Key(out) else String(out)];
      }
    }

    // Numbers

    // Takes digits as long as the value stays within `limit` * 10 + `last`: what each of the four
    // integer loops does with the bound of its type. `s` is the text from the first digit on, `n0`
    // of whose digits have been taken.
    method TakeDigits(start: nat, limit: nat, last: nat, ghost s: Bytes, ghost n0: nat)
      returns (i: nat, full: bool, ghost n: nat)
      requires HasRead(s, n0, start) && InText() && Rest() == s[n0..] && start <= limit * 10 + last && last < 10
      modifies `pos
      ensures InText() && i <= limit * 10 + last && HasRead(s, n, i) && Rest() == s[n..]
      ensures if full then n < DigitCount(s) && Appended(i, s[n]) > limit * 10 + last else n == DigitCount(s)
    {
      i := start;
      full := false;
      n := n0;
      while IsDigit(Peek())
        invariant HasRead(s, n, i) && InText() && Rest() == s[n..] && i <= limit * 10 + last
        decreases |text| - pos
      {
        DigitsGoOn(s, n);
        if i >= limit {
          if i != limit || Peek() as int - 48 > last {
            full := true;
            return;
          }
        }
        ReadStep(s, n, i);
        var c := Take();
        i := i * 10 + (c as int - 48);
        n := n + 1;
      }
      DigitsGoOn(s, n);
    }

    method TakeAllDigits()
      requires InText()
      modifies `pos
      ensures InText() && Rest() == old(Rest())[DigitCount(old(Rest()))..]
    {
      ghost var s := Rest();
      ghost var n := 0;
      while IsDigit(Peek())
        invariant InText() && 0 <= n <= |s| && Rest() == s[n..] && DigitCount(s) == n + DigitCount(Rest())
        decreases |text| - pos
      {
        var _ := Take();
        n := n + 1;
      }
    }

    // The digits before the point: their value while it fits 64 bits, and which type it takes.
    method ScanInteger(minus: bool) returns (i: nat, use64: bool, useDouble: bool)
      requires InText() && IsDigit(Peek())
      modifies `pos
      ensures var s, p := old(Rest()), IntegerPart(old(Rest()));
        && p.Part? && InText() && Rest() == s[p.length..]
        && HeadValue(minus, i, use64, useDouble, false, Decimal(s[..p.length]))
    {
      ghost var s := Rest();
      var c := Take();
      use64, useDouble := false, false;
      i := c as int - 48;
      assert s[..1] == [c] && s[..1][..0] == [] && s[..0] == [];
      if c == ZERO {
        return;
      }
      i, use64, useDouble := ScanLonger(minus, i, s);
    }

    // The digits after a first digit 1-9: through the loop of 32 bits, that of 64 bits, and the rest.
    method ScanLonger(minus: bool, first: nat, ghost s: Bytes) returns (i: nat, use64: bool, useDouble: bool)
      requires HasRead(s, 1, first) && first < 10 && InText() && Rest() == s[1..]
      modifies `pos
      ensures InText() && Rest() == s[DigitCount(s)..]
      ensures HeadValue(minus, i, use64, useDouble, false, Decimal(s[..DigitCount(s)]))
    {
      ghost var n;
      var last := if minus then 8 else 5;
      i, use64, n := TakeDigits(first, if minus then 214748364 else 429496729, last, s, 1);
      useDouble := false;
      if use64 {
        StillTooLarge(s, n, i, Bound32(minus));
        i, useDouble, n := TakeDigits(i, if minus then 0x0CCC_CCCC_CCCC_CCCC else 0x1999_9999_9999_9999, last, s, n);
        if useDouble {
          StillTooLarge(s, n, i, if minus then 0x8000_0000_0000_0000 else 0xFFFF_FFFF_FFFF_FFFF);
          DigitsGoOn(s, n);
          TakeAllDigits();
        }
      }
    }

    method ScanNanOrInf()
      requires Ready()
      modifies `pos, `error
      ensures InText()
      ensures var p := NanOrInf(old(Rest()));
        if p.Part? then error.NoError? && Rest() == old(Rest())[p.length..] else !error.NoError?
    {
      ghost var s := Rest();
      var all := ConsumeWord(NAN);
      if all {
        return;
      }
      ghost var taken := Matched(NAN, s);
      all := ConsumeWord(INF);
      if !all {
        error := ValueInvalid;
        return;
      }
      assert Rest() == s[taken + 3..];
      if Peek() == 105 {
        all := ConsumeWord(INITY);
        if !all {
          error := ValueInvalid;
        }
      }
    }

    method ScanFraction() returns (present: bool)
      requires Ready()
      modifies `pos, `error
      ensures InText()
      ensures var p := Fraction(old(Rest()));
        if p.Part? then error.NoError? && Rest() == old(Rest())[p.length..] && present == (p.length > 0)
          else !error.NoError?
    {
      present := Consume(DOT);
      if present {
        if !IsDigit(Peek()) {
          error := NumberMissFraction;
          return;
        }
        TakeAllDigits();
      }
    }

    method ConsumeSign()
      requires InText()
      modifies `pos
      ensures InText() && Rest() == old(Rest())[if old(Peek()) == PLUS || old(Peek()) == MINUS then 1 else 0..]
    {
      var sign := Consume(PLUS);
      if !sign {
        sign := Consume(MINUS);
      }
    }

    method ScanExponent() returns (present: bool)
      requires Ready()
      modifies `pos, `error
      ensures InText()
      ensures var p := Exponent(old(Rest()));
        if p.Part? then error.NoError? && Rest() == old(Rest())[p.length..] && present == (p.length > 0)
          else !error.NoError?
    {
      ghost var s := Rest();
      present := Consume(101);
      if !present {
        present := Consume(69);
      }
      if present {
        ConsumeSign();
        ghost var signed := if JsonText.Peek(s[1..]) == PLUS || JsonText.Peek(s[1..]) == MINUS then 2 else 1;
        assert Rest() == s[signed..];
        if !IsDigit(Peek()) {
          error := NumberMissExponent;
          return;
        }
        TakeAllDigits();
      }
    }

    // The part of a number before its fraction.
    method ScanHead(minus: bool) returns (i: nat, use64: bool, useDouble: bool, special: bool)
      requires Ready()
      modifies `pos, `error
      ensures InText()
      ensures var s, p := old(Rest()), HeadOf(flags, old(Rest()));
        && special == IsSpecial(flags, s)
        && (p.Part? <==> error.NoError?)
        && (p.Part? ==>
             Rest() == s[p.length..] && HeadValue(minus, i, use64, useDouble, special, Decimal(s[..p.length])))
    {
      i, use64, useDouble := 0, false, false;
      special := flags.nanAndInf && (Peek() == 73 || Peek() == 78);
      if IsDigit(Peek()) {
        i, use64, useDouble := ScanInteger(minus);
      } else if special {
        ScanNanOrInf();
      } else {
        error := ValueInvalid;
      }
    }

    // The end of a number: its fraction and exponent.
    method ScanTail() returns (plain: bool)
      requires Ready()
      modifies `pos, `error
      ensures InText()
      ensures var t, p := old(Rest()), TailOf(old(Rest()));
        if p.Part? then error.NoError? && plain == (p.length == 0) && Rest() == t[p.length..] else !error.NoError?
    {
      ghost var t := Rest();
      var fraction := ScanFraction();
      if !error.NoError? {
        return true;
      }
      ghost var n := Fraction(t).length;
      var exponent := ScanExponent();
      if error.NoError? {
        DropDrop(t, n, Exponent(t[n..]).length);
      }
      plain := !fraction && !exponent;
    }

    // Everything of a number after its sign; `plain` says that it has neither fraction nor exponent.
    method ScanNumber(minus: bool) returns (i: nat, use64: bool, useDouble: bool, special: bool, plain: bool)
      requires Ready()
      modifies `pos, `error
      ensures InText()
      ensures var u, p := old(Rest()), ShapeOf(flags, old(Rest()));
        && (p.Shape? <==> error.NoError?)
        && (p.Shape? ==>
              && special == p.special && plain == (p.head == p.length) && Rest() == u[p.length..]
              && HeadValue(minus, i, use64, useDouble, special, Decimal(u[..p.head])))
    {
      plain := true;
      ghost var u := Rest();
      i, use64, useDouble, special := ScanHead(minus);
      if error.NoError? {
        plain := ScanTail();
        ghost var h := HeadOf(flags, u).length;
        if error.NoError? {
          DropDrop(u, h, TailOf(u[h..]).length);
        }
      }
    }

    // The event of a complete literal whose head has the value `v`.
    method ReportNumber(literal: Bytes, minus: bool, i: nat, use64: bool, useDouble: bool, special: bool, plain: bool,
        ghost v: nat, ghost rest: Bytes)
      requires Ready() && HeadValue(minus, i, use64, useDouble, special, v)
      modifies `error, `events
      ensures var r := Classify(flags, minus, special, plain, v, literal, rest);
        && (r.Scanned? <==> error.NoError?)
        && events == old(events) + if r.Scanned? then [r.event] else []
    {
      var double := useDouble || !plain;
      if double && flags.tooBig(literal) {
        error := NumberTooBig;
      } else if flags.numbersAsStrings {
        events := events + [RawNumber(literal)];
      } else if double || special {
        events := events + [Double(literal)];
      } else if use64 {
        events := events + [if minus then Int64(0 - i) else Uint64(i)];
      } else {
        events := events + [if minus then Int(0 - i) else Uint(i)];
      }
    }

    method ParseNumber()
      requires Ready()
      modifies `pos, `error, `events
      ensures InText()
      ensures var r := Number(flags, old(Rest()));
        && (r.Scanned? <==> error.NoError?)
        && events == old(events) + (if r.Scanned? then [r.event] else [])
        && (r.Scanned? ==> Rest() == r.rest)
    {
      var start := pos;
      var minus := Consume(MINUS);
      ghost var after, p := pos, ShapeOf(flags, Rest());
      var i, use64, useDouble, special, plain := ScanNumber(minus);
      if error.NoError? {
        NumberAt(flags, text, start, after, pos, minus, p);
        ReportNumber(text[start..pos], minus, i, use64, useDouble, special, plain, Decimal(text[after..][..p.head]),
          Rest());
      } else {
        NumberBad(flags, text[start..], minus, text[after..]);
      }
    }

    // Values

    method ParseScalar()
      requires Ready() && Peek() != LBRACE && Peek() != LBRACKET
      modifies `pos, `error, `events
      ensures Done(old(events), Scalar(flags, old(Rest())))
    {
      var c := Peek();
      if c == 110 {
        ParseName(Text("null"), Null);
      } else if c == 116 {
        ParseName(Text("true"), Bool(true));
      } else if c == 102 {
        ParseName(Text("false"), Bool(false));
      } else if c == QUOTE {
        ParseString(false);
      } else {
        ParseNumber();
      }
    }

    method ParseValue()
      requires Ready()
      modifies `pos, `error, `events
      ensures Done(old(events), Value(flags, old(Rest())))
      decreases |text| - pos, 3
    {
      var c := Peek();
      if c == LBRACE {
        ParseObject();
      } else if c == LBRACKET {
        ParseArray();
      } else {
        ParseScalar();
      }
    }

    lemma OwesRest(start: seq<Event>, total: Outcome, before: seq<Event>, done: seq<Event>, left: Outcome)
      requires events == before + done
      requires before + (done + left.events) == start + total.events && left.ok == total.ok && left.rest == total.rest
      ensures Owes(start, total, left)
    {
    }

    method ParseArray()
      requires Ready() && Peek() == LBRACKET
      modifies `pos, `error, `events
      ensures Done(old(events), Then([StartArray], Array(flags, old(Rest())[1..])))
      decreases |text| - pos, 2
    {
      var c := Take();
      events := events + [StartArray];
      ParseArrayBody();
    }

    // An array after its opening bracket.
    method ParseArrayBody()
      requires Ready()
      modifies `pos, `error, `events
      ensures Done(old(events), Array(flags, old(Rest())))
      decreases |text| - pos, 6
    {
      ghost var start, total := events, Array(flags, Rest());
      SkipWhitespaceAndComments();
      if !error.NoError? {
        return;
      }
      var close := Consume(RBRACKET);
      if close {
        events := events + [EndArray(0)];
        return;
      }
      ParseElements(start, total);
    }

    // The loop over the elements of an array.
    method ParseElements(ghost start: seq<Event>, ghost total: Outcome)
      requires Ready() && Owes(start, total, Elements(flags, Rest(), 0))
      modifies `pos, `error, `events
      ensures Done(start, total)
      decreases |text| - pos, 5
    {
      var count: U32 := 0;
      while true
        invariant Ready() && Owes(start, total, Elements(flags, Rest(), count)) && |Rest()| <= |old(Rest())|
        decreases |text| - pos
      {
        ParseElement(count, start, total);
        if !error.NoError? {
          return;
        }
        count := Add(count, 1);
        var more := MoreElements(count, start, total);
        if !more {
          return;
        }
      }
    }

    // The value of one element.
    method ParseElement(n: U32, ghost start: seq<Event>, ghost total: Outcome)
      requires Ready() && Owes(start, total, Elements(flags, Rest(), n))
      modifies `pos, `error, `events
      ensures InText()
      ensures if error.NoError?
        then |Rest()| < |old(Rest())| && Owes(start, total, AfterElement(flags, Rest(), Add(n, 1)))
        else Done(start, total)
      decreases |text| - pos, 4
    {
      ghost var before, v := events, Value(flags, Rest());
      ParseValue();
      if error.NoError? {
        OwesRest(start, total, before, v.events, AfterElement(flags, Rest(), Add(n, 1)));
      }
    }

    // The comma or bracket after an element: is there another one?
    method MoreElements(count: U32, ghost start: seq<Event>, ghost total: Outcome) returns (more: bool)
      requires Ready() && Owes(start, total, AfterElement(flags, Rest(), count))
      modifies `pos, `error, `events
      ensures InText()
      ensures if more then error.NoError? && |Rest()| < |old(Rest())| &&
        Owes(start, total, Elements(flags, Rest(), count))
              else Done(start, total)
    {
      SkipWhitespaceAndComments();
      if !error.NoError? {
        return false;
      }
      var comma := Consume(COMMA);
      if comma {
        SkipWhitespaceAndComments();
        if !error.NoError? {
          return false;
        }
        if flags.trailingCommas && Peek() == RBRACKET {
          events := events + [EndArray(count)];
          var c := Take();
          return false;
        }
        return true;
      }
      var close := Consume(RBRACKET);
      if close {
        events := events + [EndArray(count)];
      } else {
        error := ArrayMissCommaOrSquareBracket;
      }
      more := false;
    }

    method ParseObject()
      requires Ready() && Peek() == LBRACE
      modifies `pos, `error, `events
      ensures Done(old(events), Then([StartObject], Object(flags, old(Rest())[1..])))
      decreases |text| - pos, 2
    {
      var c := Take();
      events := events + [StartObject];
      ParseObjectBody();
    }

    // An object after its opening brace.
    method ParseObjectBody()
      requires Ready()
      modifies `pos, `error, `events
      ensures Done(old(events), Object(flags, old(Rest())))
      decreases |text| - pos, 6
    {
      ghost var start, total := events, Object(flags, Rest());
      SkipWhitespaceAndComments();
      if !error.NoError? {
        return;
      }
      var close := Consume(RBRACE);
      if close {
        events := events + [EndObject(0)];
        return;
      }
      ParseMembers(start, total);
    }

    // The loop over the members of an object.
    method ParseMembers(ghost start: seq<Event>, ghost total: Outcome)
      requires Ready() && Owes(start, total, Members(flags, Rest(), 0))
      modifies `pos, `error, `events
      ensures Done(start, total)
      decreases |text| - pos, 5
    {
      var count: U32 := 0;
      while true
        invariant Ready() && Owes(start, total, Members(flags, Rest(), count)) && |Rest()| <= |old(Rest())|
        decreases |text| - pos
      {
        ParseKey(count, start, total);
        if !error.NoError? {
          return;
        }
        ParseMemberValue(count, start, total);
        if !error.NoError? {
          return;
        }
        count := Add(count, 1);
        var more := MoreMembers(count, start, total);
        if !more {
          return;
        }
      }
    }

    // The name of a member.
    method ParseKey(n: U32, ghost start: seq<Event>, ghost total: Outcome)
      requires Ready() && Owes(start, total, Members(flags, Rest(), n))
      modifies `pos, `error, `events
      ensures InText()
      ensures if error.NoError?
        then |Rest()| < |old(Rest())| && Owes(start, total, AfterKey(flags, Rest(), n))
        else Done(start, total)
    {
      if Peek() != QUOTE {
        error := ObjectMissName;
        return;
      }
      ghost var before, key := events, Quoted(Rest(), true);
      ParseString(true);
      if error.NoError? {
        OwesRest(start, total, before, key.events, AfterKey(flags, Rest(), n));
      }
    }

    // The colon of a member, and the space around it.
    method ParseColon()
      requires Ready()
      modifies `pos, `error
      ensures InText()
      ensures var s := old(Rest());
        if error.NoError?
        then Skip(flags, s).Skipped? && JsonText.Peek(Skip(flags, s).rest) == COLON
             && Skip(flags, Skip(flags, s).rest[1..]) == Skipped(Rest())
        else forall n :: AfterKey(flags, s, n) == FAIL
    {
      SkipWhitespaceAndComments();
      if !error.NoError? {
        return;
      }
      var colon := Consume(COLON);
      if !colon {
        error := ObjectMissColon;
        return;
      }
      SkipWhitespaceAndComments();
    }

    // The colon and the value of a member.
    method ParseMemberValue(n: U32, ghost start: seq<Event>, ghost total: Outcome)
      requires Ready() && Owes(start, total, AfterKey(flags, Rest(), n))
      modifies `pos, `error, `events
      ensures InText()
      ensures if error.NoError?
        then |Rest()| < |old(Rest())| && Owes(start, total, AfterMember(flags, Rest(), Add(n, 1)))
        else Done(start, total)
      decreases |text| - pos, 4
    {
      ParseColon();
      if !error.NoError? {
        return;
      }
      ghost var before, v := events, Value(flags, Rest());
      ParseValue();
      if error.NoError? {
        OwesRest(start, total, before, v.events, AfterMember(flags, Rest(), Add(n, 1)));
      }
    }

    // The comma or brace after a member: is there another one?
    method MoreMembers(count: U32, ghost start: seq<Event>, ghost total: Outcome) returns (more: bool)
      requires Ready() && Owes(start, total, AfterMember(flags, Rest(), count))
      modifies `pos, `error, `events
      ensures InText()
      ensures if more then error.NoError? && |Rest()| < |old(Rest())| &&
        Owes(start, total, Members(flags, Rest(), count))
              else Done(start, total)
    {
      SkipWhitespaceAndComments();
      if !error.NoError? {
        return false;
      }
      var comma := Consume(COMMA);
      if comma {
        SkipWhitespaceAndComments();
        if !error.NoError? {
          return false;
        }
        if flags.trailingCommas && Peek() == RBRACE {
          events := events + [EndObject(count)];
          var c := Take();
          return false;
        }
        return true;
      }
      var close := Consume(RBRACE);
      if close {
        events := events + [EndObject(count)];
      } else {
        error := ObjectMissCommaOrCurlyBracket;
      }
      more := false;
    }

    // Parses the whole text by recursive descent.
    method Parse() returns (accepted: bool)
      requires Ready()
      modifies `pos, `error, `events
      ensures Done(old(events), Recursive(flags, old(Rest()))) && accepted == Recursive(flags, old(Rest())).ok
    {
      ghost var s := Rest();
      accepted := false;
      SkipWhitespaceAndComments();
      if !error.NoError? {
        return;
      }
      if Peek() == 0 {
        error := DocumentEmpty;
        return;
      }
      ghost var start, v := events, Value(flags, Rest());
      ParseValue();
      if !error.NoError? {
        return;
      }
      assert events == start + (v.events + []);
      if !flags.stopWhenDone {
        SkipWhitespaceAndComments();
        if !error.NoError? {
          return;
        }
        if Peek() != 0 {
          error := DocumentRootNotSingular;
          return;
        }
      }
      accepted := true;
    }

    // The pushdown automaton

    // Opens an object or array: the state to resume and a count of zero go on the stack.
    method Open(src: State, dst: State)
      requires Ready() && Rest() != [] && Stacked(src, stack) && (dst.ObjectInitial? || dst.ArrayInitial?)
      requires src.Start? || src.KeyValueDelimiter? || src.ArrayInitial? || src.ElementDelimiter?
      modifies `stack, `pos, `events
      ensures Ready() && Rest() == old(Rest())[1..]
      ensures stack == [Frame(ResumeOf(src), 0)] + old(stack) && Stacked(dst, stack)
      ensures events == old(events) + [if dst.ObjectInitial? then StartObject else StartArray]
    {
      var n := src;
      if src.ArrayInitial? || src.ElementDelimiter? {
        n := Element;
      } else if src.KeyValueDelimiter? {
        n := MemberValue;
      }
      stack := [Frame(n, 0)] + stack;
      events := events + [if dst.ObjectInitial? then StartObject else StartArray];
      var c := Take();
    }

    // Closes an object or array with `c` members or elements, and resumes what is around it.
    method Close(src: State, c: U32, isObject: bool) returns (next: State)
      requires Ready() && Rest() != [] && Stacked(src, stack) && stack != []
      modifies `stack, `pos, `events
      ensures Ready() && Rest() == old(Rest())[1..]
      ensures next == Resumed(old(stack)[0].resume) && stack == old(stack)[1..] && Stacked(next, stack)
      ensures events == old(events) + [if isObject then EndObject(c) else EndArray(c)]
    {
      next := stack[0].resume;
      stack := stack[1..];
      if next.Start? {
        next := Finish;
      }
      events := events + [if isObject then EndObject(c) else EndArray(c)];
      var t := Take();
    }

    // Counts one more member or element at a comma.
    method CountOne(src: State, dst: State)
      requires Ready() && Rest() != [] && Stacked(src, stack) && stack != [] &&
        (dst.MemberDelimiter? || dst.ElementDelimiter?)
      modifies `stack, `pos
      ensures Ready() && Rest() == old(Rest())[1..] && Stacked(dst, stack)
      ensures stack == [old(stack)[0].(count := Add(old(stack)[0].count, 1))] + old(stack)[1..]
    {
      stack := [stack[0].(count := Add(stack[0].count, 1))] + stack[1..];
      var c := Take();
    }

    // The new state after a transition `m` has been taken from `before`, or an error.
    predicate Moved(m: Move, next: State, before: seq<Event>)
      reads `pos, `error, `events, `stack
    {
      && InText() && next == m.state
      && (if m.state.Error? then events == before
          else
            && error.NoError? && Rest() == m.rest && stack == m.stack
            && events == before + m.events && Stacked(next, stack))
    }

    // Transitions that end an object or array.
    method TransitFinish(src: State, dst: State) returns (next: State)
      requires Ready() && Rest() != [] && Stacked(src, stack) && stack != [] && (dst.ObjectFinish? || dst.ArrayFinish?)
      modifies `stack, `pos, `error, `events
      ensures Moved(Transit(flags, src, dst, old(stack), old(Rest())), next, old(events))
    {
      if dst.ObjectFinish? {
        if !flags.trailingCommas && src.MemberDelimiter? {
          error := ObjectMissName;
          return Error;
        }
        var c := stack[0].count;
        if src.MemberValue? {
          c := Add(c, 1);
        }
        next := Close(src, c, true);
      } else {
        if !flags.trailingCommas && src.ElementDelimiter? {
          error := ValueInvalid;
          return Error;
        }
        var c := stack[0].count;
        if src.Element? {
          c := Add(c, 1);
        }
        next := Close(src, c, false);
      }
    }

    // Transitions that read a value, a name or nothing.
    method TransitRead(src: State, dst: State) returns (next: State)
      requires Ready() && Rest() != [] && Stacked(src, stack) && dst == Predict(src, Tokenize(Rest()[0]))
      requires dst.MemberKey? || dst.KeyValueDelimiter? || dst.MemberValue? || dst.Element? || dst.Single?
      modifies `pos, `error, `events
      ensures Moved(Transit(flags, src, dst, stack, old(Rest())), next, old(events))
    {
      next := if dst.Single? then Finish else dst;
      if dst.MemberKey? {
        ParseString(true);
      } else if dst.KeyValueDelimiter? {
        var c := Take();
        assert events + [] == events;
      } else {
        ScalarFails(flags, Rest());
        ParseValue();
      }
      if !error.NoError? {
        next := Error;
      }
    }

    method TransitTo(src: State, dst: State) returns (next: State)
      requires Ready() && Rest() != [] && Stacked(src, stack) && dst == Predict(src, Tokenize(Rest()[0]))
      modifies `stack, `pos, `error, `events
      ensures Moved(Transit(flags, src, dst, old(stack), old(Rest())), next, old(events))
    {
      if dst.Error? {
        next := Error;
      } else if dst.ObjectInitial? || dst.ArrayInitial? {
        Open(src, dst);
        next := dst;
      } else if dst.MemberDelimiter? || dst.ElementDelimiter? {
        CountOne(src, dst);
        next := dst;
        assert events + [] == events;
      } else if dst.ObjectFinish? || dst.ArrayFinish? {
        next := TransitFinish(src, dst);
      } else {
        next := TransitRead(src, dst);
      }
    }

    method HandleError(src: State)
      modifies `error
      ensures !error.NoError?
    {
      if !error.NoError? {
        return;
      }
      match src
      case Start => error := DocumentEmpty;
      case Finish => error := DocumentRootNotSingular;
      case ObjectInitial => error := ObjectMissName;
      case MemberDelimiter => error := ObjectMissName;
      case MemberKey => error := ObjectMissColon;
      case MemberValue => error := ObjectMissCommaOrCurlyBracket;
      case KeyValueDelimiter => error := ValueInvalid;
      case ArrayInitial => error := ValueInvalid;
      case ElementDelimiter => error := ValueInvalid;
      case _ => error := ArrayMissCommaOrSquareBracket;
    }

    // One round of the loop: a transition, and the space after it.
    method Round(src: State, ghost start: seq<Event>, ghost total: Outcome) returns (next: State, more: bool)
      requires Ready() && Peek() != 0 && Stacked(src, stack) && Owes(start, total, Loop(flags, src, stack, Rest()))
      modifies `stack, `pos, `error, `events
      ensures InText()
      ensures if more
        then error.NoError? && |Rest()| < |old(Rest())| && Stacked(next, stack) &&
          Owes(start, total, Loop(flags, next, stack, Rest()))
        else Done(start, total) && (error.NoError? ==> next.Finish?)
    {
      ghost var before, m := events, Transit(flags, src, Predict(src, Tokenize(Rest()[0])), stack, Rest());
      var token := Tokenize(Peek());
      next := TransitTo(src, Predict(src, token));
      if next.Error? {
        HandleError(src);
        return next, false;
      }
      OwesRest(start, total, before, m.events, Continue(flags, next, stack, Rest()));
      if flags.stopWhenDone && next.Finish? {
        return next, false;
      }
      SkipWhitespaceAndComments();
      more := error.NoError?;
    }

    // Parses the whole text with the automaton.
    method IterativeParse() returns (accepted: bool)
      requires Ready() && stack == []
      modifies `stack, `pos, `error, `events
      ensures Done(old(events), Iterative(flags, old(Rest()))) && accepted == Iterative(flags, old(Rest())).ok
      ensures stack == []
    {
      ghost var start, total := events, Iterative(flags, Rest());
      accepted := false;
      SkipWhitespaceAndComments();
      if !error.NoError? {
        return;
      }
      var state := Start;
      while Peek() != 0
        invariant Ready() && Stacked(state, stack) && Owes(start, total, Loop(flags, state, stack, Rest()))
        decreases |Rest()|
      {
        var more;
        state, more := Round(state, start, total);
        if !more {
          accepted := error.NoError?;
          stack := [];
          return;
        }
      }
      if !state.Finish? {
        HandleError(state);
      }
      accepted := error.NoError?;
      stack := [];
    }
  }

  method RunRecursive(f: Flags, t: Bytes) returns (r: Reader, accepted: bool)
    ensures fresh(r) && r.flags == f && r.text == t && r.InText()
    ensures r.events == Recursive(f, t).events
    ensures accepted == r.error.NoError? == Recursive(f, t).ok
    ensures accepted ==> r.Rest() == Recursive(f, t).rest
  {
    ghost var total := Recursive(f, t);
    r := new Reader(f, t);
    accepted := r.Parse();
    assert r.Done([], total);
  }

  method RunIterative(f: Flags, t: Bytes) returns (r: Reader, accepted: bool)
    ensures fresh(r) && r.flags == f && r.text == t && r.InText()
    ensures r.events == Iterative(f, t).events
    ensures accepted == r.error.NoError? == Iterative(f, t).ok
    ensures accepted ==> r.Rest() == Iterative(f, t).rest
  {
    ghost var total := Iterative(f, t);
    r := new Reader(f, t);
    accepted := r.IterativeParse();
    assert r.Done([], total);
  }

  // Two readers of the same text with the same flags, one of each kind, end alike.
  method BothParse(f: Flags, t: Bytes) returns (a: Reader, b: Reader, accepted: bool)
    ensures a.flags == b.flags == f && a.text == b.text == t
    ensures a.events == b.events == Recursive(f, t).events
    ensures accepted == Recursive(f, t).ok && a.error.NoError? == b.error.NoError? == accepted
    ensures a.InText() && b.InText() && (accepted ==> a.pos == b.pos)
  {
    ParsersAgree(f, t);
    a, accepted := RunRecursive(f, t);
    var same;
    b, same := RunIterative(f, t);
    assert accepted ==> |a.Rest()| == |b.Rest()|;
  }
}
