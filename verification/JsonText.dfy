/** The lexical part of JSON texts as the reader takes it: white space and comments, strings,
    numbers and literal names. A function consumes a text from the front. */
module JsonText {
  import opened Serial

  // The end of a stream reads as the character 0.
  function Peek(s: Bytes): Byte {
    if s == [] then 0 else s[0]
  }

  const TAB: Byte := 9
  const LF: Byte := 10
  const CR: Byte := 13
  const SPACE: Byte := 32
  const QUOTE: Byte := 34
  const STAR: Byte := 42
  const PLUS: Byte := 43
  const COMMA: Byte := 44
  const MINUS: Byte := 45
  const DOT: Byte := 46
  const SLASH: Byte := 47
  const ZERO: Byte := 48
  const COLON: Byte := 58
  const LBRACKET: Byte := 91
  const BACKSLASH: Byte := 92
  const RBRACKET: Byte := 93
  const LBRACE: Byte := 123
  const RBRACE: Byte := 125

  // Characters and their codes.
  function Code(c: char): Byte {
    if c as int < 0x100 then c as int else 0
  }

  function Text(w: string): Bytes {
    seq(|w|, i requires 0 <= i < |w| => Code(w[i]))
  }

  // The parse flags that change what is accepted or reported. Floating point is not part of the
  // model: `tooBig` stands for the range check of the literals that become doubles.
  datatype Flags = Flags(
    comments: bool, trailingCommas: bool, stopWhenDone: bool, nanAndInf: bool, numbersAsStrings: bool,
    tooBig: Bytes -> bool)

  // What a handler is told. A double is represented by its literal.
  datatype Event =
    | Null
    | Bool(b: bool)
    | Int(i: int)
    | Uint(i: int)
    | Int64(i: int)
    | Uint64(i: int)
    | Double(literal: Bytes)
    | RawNumber(literal: Bytes)
    | String(text: Bytes)
    | Key(text: Bytes)
    | StartObject
    | EndObject(members: U32)
    | StartArray
    | EndArray(elements: U32)

  // White space and comments

  predicate IsSpace(c: Byte) {
    c == SPACE || c == LF || c == CR || c == TAB
  }

  function SkipSpace(s: Bytes): (r: Bytes)
    ensures |r| <= |s|
  {
    if s != [] && IsSpace(s[0]) then SkipSpace(s[1..]) else s
  }

  datatype Skipped = Unclosed | Skipped(rest: Bytes)

  // The rest of a block comment, after its opening.
  function SkipBlock(s: Bytes): (r: Skipped)
    ensures r.Skipped? ==> |r.rest| < |s|
  {
    if Peek(s) == 0 then Unclosed
    else if s[0] == STAR && Peek(s[1..]) == SLASH then Skipped(s[2..])
    else SkipBlock(s[1..])
  }

  // The rest of a line comment, with its line feed.
  function SkipLine(s: Bytes): (r: Bytes)
    ensures |r| <= |s|
  {
    if Peek(s) == 0 then s
    else if s[0] == LF then s[1..]
    else SkipLine(s[1..])
  }

  // A comment after its first slash.
  function SkipComment(s: Bytes): (r: Skipped)
    ensures r.Skipped? ==> |r.rest| < |s|
  {
    if Peek(s) == STAR then SkipBlock(s[1..])
    else if Peek(s) == SLASH then Skipped(SkipLine(s[1..]))
    else Unclosed
  }

  function Skip(f: Flags, s: Bytes): (r: Skipped)
    ensures r.Skipped? ==> |r.rest| <= |s|
    decreases |s|
  {
    var w := SkipSpace(s);
    if !f.comments || Peek(w) != SLASH then Skipped(w)
    else
      match SkipComment(w[1..])
      case Unclosed => Unclosed
      case Skipped(r) => Skip(f, r)
  }

  // Strings

  // The character after a backslash that stands for one byte; 0 if there is none.
  function Unescape(e: Byte): Byte {
    if e == QUOTE || e == SLASH || e == BACKSLASH then e
    else if e == 98 then 8
    else if e == 102 then 12
    else if e == 110 then LF
    else if e == 114 then CR
    else if e == 116 then TAB
    else 0
  }

  // The value of a hexadecimal digit, or 16.
  function HexValue(c: Byte): nat {
    if 48 <= c <= 57 then c - 48
    else if 65 <= c <= 70 then c - 55
    else if 97 <= c <= 102 then c - 87
    else 16
  }

  predicate HasHex4(s: Bytes) {
    |s| >= 4 && HexValue(s[0]) < 16 && HexValue(s[1]) < 16 && HexValue(s[2]) < 16 && HexValue(s[3]) < 16
  }

  function Hex4(s: Bytes): (x: nat)
    requires HasHex4(s)
    ensures x < 0x1_0000
  {
    0x1000 * HexValue(s[0]) + 0x100 * HexValue(s[1]) + 0x10 * HexValue(s[2]) + HexValue(s[3])
  }

  datatype CodePoint = NoCodePoint | CodePoint(point: nat, rest: Bytes)

  // What follows a backslash and `u`: four digits, or a surrogate pair.
  function UnicodeEscape(s: Bytes): (r: CodePoint)
    ensures r.CodePoint? ==> |r.rest| < |s| && r.point <= 0x10_FFFF
  {
    if !HasHex4(s) then NoCodePoint
    else
      var high := Hex4(s);
      if !(0xD800 <= high <= 0xDBFF) then CodePoint(high, s[4..])
      else if |s| < 6 || s[4] != BACKSLASH || s[5] != 117 || !HasHex4(s[6..]) then NoCodePoint
      else
        var low := Hex4(s[6..]);
        if !(0xDC00 <= low <= 0xDFFF) then NoCodePoint
        else CodePoint((high - 0xD800) * 0x400 + (low - 0xDC00) + 0x1_0000, s[10..])
  }

  function Utf8(p: nat): Bytes
    requires p <= 0x10_FFFF
  {
    if p <= 0x7F then [p]
    else if p <= 0x7FF then [0xC0 + p / 0x40, 0x80 + p % 0x40]
    else if p <= 0xFFFF then [0xE0 + p / 0x1000, 0x80 + p / 0x40 % 0x40, 0x80 + p % 0x40]
    else [0xF0 + p / 0x4_0000, 0x80 + p / 0x1000 % 0x40, 0x80 + p / 0x40 % 0x40, 0x80 + p % 0x40]
  }

  datatype Decoded = BadString | Decoded(text: Bytes, rest: Bytes)

  function Prepend(front: Bytes, d: Decoded): Decoded {
    if d.Decoded? then Decoded(front + d.text, d.rest) else d
  }

  // A string after its opening quote.
  function Chars(s: Bytes): (d: Decoded)
    ensures d.Decoded? ==> |d.rest| < |s|
    decreases |s|
  {
    var c := Peek(s);
    if c == BACKSLASH then
      var e := Peek(s[1..]);
      if Unescape(e) != 0 then Prepend([Unescape(e)], Chars(s[2..]))
      else if e == 117 then
        match UnicodeEscape(s[2..])
        case NoCodePoint => BadString
        case CodePoint(p, rest) => Prepend(Utf8(p), Chars(rest))
      else BadString
    else if c == QUOTE then Decoded([], s[1..])
    else if c < 0x20 then BadString
    else Prepend([s[0]], Chars(s[1..]))
  }

  // Numbers

  predicate IsDigit(c: Byte) {
    48 <= c <= 57
  }

  // How many digits a text starts with.
  function DigitCount(s: Bytes): (n: nat)
    ensures n <= |s|
  {
    if s != [] && IsDigit(s[0]) then 1 + DigitCount(s[1..]) else 0
  }

  predicate AllDigits(d: Bytes) {
    forall i :: 0 <= i < |d| ==> IsDigit(d[i])
  }

  function DigitValue(c: Byte): nat {
    if IsDigit(c) then c - 48 else 0
  }

  // The integer that decimal digits denote.
  function Decimal(d: Bytes): nat {
    if d == [] then 0 else 10 * Decimal(d[..|d| - 1]) + DigitValue(d[|d| - 1])
  }

  lemma {:induction false} DecimalGrows(d: Bytes, more: Bytes)
    ensures Decimal(d) <= Decimal(d + more)
  {
    if more == [] {
      assert d + more == d;
    } else {
      var front := more[..|more| - 1];
      assert (d + more)[..|d + more| - 1] == d + front;
      DecimalGrows(d, front);
    }
  }

  // A scan of a part of a number: how many characters it takes, and whether it is well formed.
  datatype Part = BadPart | Part(length: nat)

  // The digits before the point: a zero, or a digit 1-9 and all digits after it.
  function IntegerPart(s: Bytes): (p: Part)
    ensures p.Part? ==> 0 < p.length <= |s|
  {
    if Peek(s) == ZERO then Part(1)
    else if IsDigit(Peek(s)) then Part(DigitCount(s))
    else BadPart
  }

  // How many characters of a word a text starts with.
  function Matched(word: Bytes, s: Bytes): (n: nat)
    ensures n <= |word| && n <= |s|
  {
    if word != [] && s != [] && word[0] == s[0] then 1 + Matched(word[1..], s[1..]) else 0
  }

  const NAN: Bytes := [78, 97, 78]
  const INF: Bytes := [73, 110, 102]
  const INITY: Bytes := [105, 110, 105, 116, 121]

  // NaN, Inf or Infinity. A failed attempt at NaN has already taken its one or two characters, so
  // that `NInf` and `NaInf` pass for Inf.
  function NanOrInf(s: Bytes): (p: Part)
    ensures p.Part? ==> 0 < p.length <= |s|
  {
    var taken := Matched(NAN, s);
    if taken == 3 then Part(3)
    else if Matched(INF, s[taken..]) < 3 then BadPart
    else if Peek(s[taken + 3..]) != 105 then Part(taken + 3)
    else if Matched(INITY, s[taken + 3..]) == 5 then Part(taken + 8)
    else BadPart
  }

  // A point and at least one digit, if there is a point.
  function Fraction(s: Bytes): (p: Part)
    ensures p.Part? ==> p.length <= |s|
  {
    if Peek(s) != DOT then Part(0)
    else if IsDigit(Peek(s[1..])) then Part(1 + DigitCount(s[1..]))
    else BadPart
  }

  // An exponent mark, an optional sign and at least one digit, if there is an exponent mark.
  function Exponent(s: Bytes): (p: Part)
    ensures p.Part? ==> p.length <= |s|
  {
    if Peek(s) != 101 && Peek(s) != 69 then Part(0)
    else
      var signed := if Peek(s[1..]) == PLUS || Peek(s[1..]) == MINUS then 2 else 1;
      if IsDigit(Peek(s[signed..])) then Part(signed + DigitCount(s[signed..])) else BadPart
  }

  datatype Scanned = BadNumber | Scanned(event: Event, rest: Bytes)

  // The event of an integer that fits 64 bits; of any other number, a double.
  predicate Fits64(minus: bool, v: nat) {
    if minus then v <= 0x8000_0000_0000_0000 else v <= 0xFFFF_FFFF_FFFF_FFFF
  }

  function IntegerEvent(minus: bool, v: nat): Event
    requires Fits64(minus, v)
  {
    if minus then (if v <= 0x8000_0000 then Int(0 - v) else Int64(0 - v))
    else (if v <= 0xFFFF_FFFF then Uint(v) else Uint64(v))
  }

  // The event of a complete literal: `v` is the value of the digits before the point, `plain` says
  // that neither a fraction nor an exponent follows them.
  function Classify(f: Flags, minus: bool, special: bool, plain: bool, v: nat, literal: Bytes,
      rest: Bytes): (r: Scanned)
    ensures r.Scanned? ==> r.rest == rest
  {
    var integer := !special && plain && Fits64(minus, v);
    if !integer && !(special && plain) && f.tooBig(literal) then BadNumber
    else if f.numbersAsStrings then Scanned(RawNumber(literal), rest)
    else if integer then Scanned(IntegerEvent(minus, v), rest)
    else Scanned(Double(literal), rest)
  }

  // A number, from its first character.
  function Number(f: Flags, s: Bytes): (r: Scanned)
    ensures r.Scanned? ==> |r.rest| < |s|
  {
    var minus := Peek(s) == MINUS;
    Unsigned(f, minus, s, if minus then s[1..] else s)
  }

  // What a number after its sign is made of: whether its head is NaN or Inf, how long the head is,
  // and how long the whole.
  datatype Shape = BadShape | Shape(special: bool, head: nat, length: nat)

  // The head: the digits before the point, or NaN or Inf.
  function HeadOf(f: Flags, u: Bytes): (p: Part)
    ensures p.Part? ==> 0 < p.length <= |u|
  {
    if IsSpecial(f, u) then NanOrInf(u) else IntegerPart(u)
  }

  predicate IsSpecial(f: Flags, u: Bytes) {
    f.nanAndInf && (Peek(u) == 73 || Peek(u) == 78)
  }

  // The tail: fraction and exponent.
  function TailOf(t: Bytes): (p: Part)
    ensures p.Part? ==> p.length <= |t|
  {
    match Fraction(t)
    case BadPart => BadPart
    case Part(fraction) =>
      match Exponent(t[fraction..])
      case BadPart => BadPart
      case Part(exponent) => Part(fraction + exponent)
  }

  function ShapeOf(f: Flags, u: Bytes): (r: Shape)
    ensures r.Shape? ==> 0 < r.head <= r.length <= |u|
  {
    match HeadOf(f, u)
    case BadPart => BadShape
    case Part(head) =>
      match TailOf(u[head..])
      case BadPart => BadShape
      case Part(tail) => Shape(IsSpecial(f, u), head, head + tail)
  }

  // A number after its sign.
  function Unsigned(f: Flags, minus: bool, s: Bytes, u: Bytes): (r: Scanned)
    requires |u| <= |s|
    ensures r.Scanned? ==> |r.rest| < |u|
  {
    match ShapeOf(f, u)
    case BadShape => BadNumber
    case Shape(special, head, length) =>
      Classify(f, minus, special, head == length, Decimal(u[..head]), s[..|s| - |u| + length], u[length..])
  }
}
