/** JSON strings as section 7 of RFC 8259 defines them, and that the reader accepts exactly these and
    reports what they stand for. */
module JsonStrings {
  import opened Sequences
  import opened Serial
  import opened JsonText
  import opened JsonGrammar
  import opened Utf8Form

  // One character of a string as it is written: itself, a backslash and a letter, a backslash with
  // `u` and four hexadecimal digits, or two of those for a pair of surrogates.
  datatype Item = Raw(c: Byte) | Short(letter: Byte) | Unit(digits: Bytes) | Pair(high: Bytes, low: Bytes)

  predicate IsHex(c: Byte) {
    48 <= c <= 57 || 65 <= c <= 70 || 97 <= c <= 102
  }

  predicate FourHex(h: Bytes) {
    |h| == 4 && IsHex(h[0]) && IsHex(h[1]) && IsHex(h[2]) && IsHex(h[3])
  }

  // The digits A to F count from ten on, in either case.
  function Nibble(c: Byte): (d: nat)
    requires IsHex(c)
    ensures d < 16
  {
    if c <= 57 then c - 48 else if c <= 70 then c - 65 + 10 else c - 97 + 10
  }

  function UnitOf(h: Bytes): (x: nat)
    requires FourHex(h)
    ensures x < 0x1_0000
  {
    ((Nibble(h[0]) * 16 + Nibble(h[1])) * 16 + Nibble(h[2])) * 16 + Nibble(h[3])
  }

  predicate HighSurrogate(x: nat) {
    0xD800 <= x < 0xDC00
  }

  predicate LowSurrogate(x: nat) {
    0xDC00 <= x < 0xE000
  }

  // The letters that may follow a backslash, and the byte that each stands for.
  const SHORT: seq<(Byte, Byte)> :=
    [(34, 34), (92, 92), (47, 47), (98, 8), (102, 12), (110, 10), (114, 13), (116, 9)]

  predicate IsShort(letter: Byte) {
    exists k :: 0 <= k < |SHORT| && SHORT[k].0 == letter
  }

  // A high surrogate must be followed by a low one.
  predicate ItemOk(i: Item) {
    match i
    case Raw(c) => c >= 0x20 && c != 34 && c != 92
    case Short(letter) => IsShort(letter)
    case Unit(h) => FourHex(h) && !HighSurrogate(UnitOf(h))
    case Pair(h, l) => FourHex(h) && FourHex(l) && HighSurrogate(UnitOf(h)) && LowSurrogate(UnitOf(l))
  }

  function ItemText(i: Item): Bytes {
    match i
    case Raw(c) => [c]
    case Short(letter) => [92, letter]
    case Unit(h) => [92, 117] + h
    case Pair(h, l) => [92, 117] + h + ([92, 117] + l)
  }

  // The code point of an escape with `u`.
  function PointOf(i: Item): (p: nat)
    requires ItemOk(i) && (i.Unit? || i.Pair?)
    ensures p <= 0x10_FFFF
  {
    if i.Unit? then UnitOf(i.digits)
    else 0x1_0000 + (UnitOf(i.high) - 0xD800) * 0x400 + (UnitOf(i.low) - 0xDC00)
  }

  // The bytes that an item stands for.
  predicate Means(i: Item, t: Bytes) {
    ItemOk(i) &&
    match i
    case Raw(c) => t == [c]
    case Short(letter) => exists k :: 0 <= k < |SHORT| && SHORT[k] == (letter, if |t| == 1 then t[0] else 0)
    case _ => FirstCharacter(t) == Character(PointOf(i), |t|) && |t| == Shortest(PointOf(i))
  }

  function ItemsText(items: seq<Item>): Bytes {
    if items == [] then [] else ItemText(items[0]) + ItemsText(items[1..])
  }

  // The bytes of a string: those of its items, one after the other.
  predicate StringMeans(items: seq<Item>, text: Bytes)
    decreases |items|
  {
    if items == [] then text == []
    else exists n :: 0 <= n <= |text| && PrefixMeans(items[0], text, n) && StringMeans(items[1..], text[n..])
  }

  predicate PrefixMeans(i: Item, text: Bytes, n: int) {
    0 <= n <= |text| && Means(i, text[..n])
  }

  // Reading

  lemma HexIs(s: Bytes, h: Bytes)
    requires h <= s && |h| == 4
    ensures HasHex4(s) <==> FourHex(h)
    ensures FourHex(h) ==> Hex4(s) == UnitOf(h)
  {
    assert s[0] == h[0] && s[1] == h[1] && s[2] == h[2] && s[3] == h[3];
    hide HexValue, Nibble, IsHex;
    NibbleIs(h[0]);
    NibbleIs(h[1]);
    NibbleIs(h[2]);
    NibbleIs(h[3]);
  }

  lemma NibbleIs(c: Byte)
    ensures HexValue(c) < 16 <==> IsHex(c)
    ensures IsHex(c) ==> HexValue(c) == Nibble(c)
  {
  }

  lemma UnitIs(h: Bytes, s: Bytes)
    requires FourHex(h) && !HighSurrogate(UnitOf(h))
    ensures UnicodeEscape(h + s) == CodePoint(UnitOf(h), s)
  {
    HexIs(h + s, h);
    assert (h + s)[4..] == s;
  }

  lemma PairIs(h: Bytes, l: Bytes, s: Bytes)
    requires ItemOk(Pair(h, l))
    ensures UnicodeEscape(h + ([92, 117] + l) + s) == CodePoint(PointOf(Pair(h, l)), s)
  {
    var t := h + ([92, 117] + l) + s;
    HexIs(t, h);
    assert t[4] == 92 && t[5] == 117 && t[6..] == l + s && t[10..] == s;
    HexIs(t[6..], l);
  }

  // What the reader makes of one item.
  function ItemBytes(i: Item): Bytes
    requires ItemOk(i)
  {
    match i
    case Raw(c) => [c]
    case Short(letter) => [Unescape(letter)]
    case _ => Utf8(PointOf(i))
  }

  lemma ShortIs(letter: Byte)
    ensures IsShort(letter) <==> Unescape(letter) != 0
    ensures IsShort(letter) ==> exists k :: 0 <= k < |SHORT| && SHORT[k] == (letter, Unescape(letter))
  {
    assert SHORT[0] == (34, 34) && SHORT[1] == (92, 92) && SHORT[2] == (47, 47) && SHORT[3] == (98, 8);
    assert SHORT[4] == (102, 12) && SHORT[5] == (110, 10) && SHORT[6] == (114, 13) && SHORT[7] == (116, 9);
  }

  lemma ItemMeans(i: Item)
    requires ItemOk(i)
    ensures Means(i, ItemBytes(i))
  {
    match i
    case Raw(_) =>
    case Short(letter) => ShortIs(letter);
    case _ =>
      Utf8Decodes(PointOf(i), []);
      assert ItemBytes(i) + [] == ItemBytes(i);
  }

  // One item is read as its bytes.
  lemma {:induction false} ReadsItem(i: Item, s: Bytes)
    requires ItemOk(i)
    ensures Chars(ItemText(i) + s) == Prepend(ItemBytes(i), Chars(s))
  {
    hide Utf8, UnicodeEscape;
    var t := ItemText(i) + s;
    match i
    case Raw(c) =>
      assert t[1..] == s;
    case Short(letter) =>
      ShortIs(letter);
      assert t[1..][0] == letter && t[2..] == s;
    case Unit(h) =>
      UnitIs(h, s);
      assert t[1..][0] == 117 && t[2..] == h + s;
    case Pair(h, l) =>
      PairIs(h, l, s);
      assert t[1..][0] == 117 && t[2..] == h + ([92, 117] + l) + s;
  }

  predicate ItemsOk(items: seq<Item>) {
    forall k :: 0 <= k < |items| ==> ItemOk(items[k])
  }

  function StringBytes(items: seq<Item>): Bytes
    requires ItemsOk(items)
  {
    if items == [] then [] else ItemBytes(items[0]) + StringBytes(items[1..])
  }

  lemma {:induction false} StringBytesMean(items: seq<Item>)
    requires ItemsOk(items)
    ensures StringMeans(items, StringBytes(items))
  {
    if items != [] {
      var front, rest := ItemBytes(items[0]), StringBytes(items[1..]);
      var text := front + rest;
      ItemMeans(items[0]);
      StringBytesMean(items[1..]);
      assert text[..|front|] == front && text[|front|..] == rest;
      assert PrefixMeans(items[0], text, |front|);
    }
  }

  // The bytes are determined.
  lemma ItemMeansOne(i: Item, t: Bytes)
    requires Means(i, t)
    ensures t == ItemBytes(i)
  {
    match i
    case Raw(_) =>
    case Short(letter) => ShortIs(letter);
    case _ => Utf8Only(PointOf(i), t);
  }

  lemma {:induction false} StringMeansOne(items: seq<Item>, text: Bytes)
    requires StringMeans(items, text) && ItemsOk(items)
    ensures text == StringBytes(items)
    decreases |items|
  {
    hide Means, ItemBytes, ItemOk;
    if items != [] {
      var n :| 0 <= n <= |text| && PrefixMeans(items[0], text, n) && StringMeans(items[1..], text[n..]);
      ItemMeansOne(items[0], text[..n]);
      StringMeansOne(items[1..], text[n..]);
      assert text == text[..n] + text[n..];
    }
  }

  // Every string of the grammar is read, as the bytes that it stands for.
  lemma {:induction false} ReadsString(items: seq<Item>, tail: Bytes)
    requires ItemsOk(items)
    ensures Chars(ItemsText(items) + ([QUOTE] + tail)) == Decoded(StringBytes(items), tail)
    ensures StringMeans(items, StringBytes(items))
  {
    StringBytesMean(items);
    if items == [] {
      assert [] + ([QUOTE] + tail) == [QUOTE] + tail && ([QUOTE] + tail)[1..] == tail;
    } else {
      hide StringMeans, Chars, ItemBytes, ItemOk, ItemText;
      var rest := ItemsText(items[1..]) + ([QUOTE] + tail);
      ReadsString(items[1..], tail);
      ReadsItem(items[0], rest);
      Associate(ItemText(items[0]), ItemsText(items[1..]), [QUOTE] + tail);
    }
  }

  // And only strings of the grammar are read.

  // The item at the front of what is left, and what follows it.
  lemma {:induction false} FrontItem(s: Bytes) returns (i: Item, rest: Bytes)
    requires Chars(s).Decoded? && Peek(s) != QUOTE
    ensures ItemOk(i) && s == ItemText(i) + rest && Chars(rest).Decoded? && |rest| < |s|
  {
    var c := Peek(s);
    if c != BACKSLASH {
      i, rest := Raw(s[0]), s[1..];
    } else {
      var e := Peek(s[1..]);
      ShortIs(e);
      if Unescape(e) != 0 {
        i, rest := Short(e), s[2..];
      } else {
        i, rest := FrontEscape(s);
      }
    }
  }

  lemma {:induction false} FrontEscape(s: Bytes) returns (i: Item, rest: Bytes)
    requires |s| >= 2 && s[0] == BACKSLASH && s[1] == 117 && Chars(s).Decoded?
    ensures ItemOk(i) && s == ItemText(i) + rest && Chars(rest).Decoded? && |rest| < |s|
  {
    hide Utf8;
    var t := s[2..];
    var h := t[..4];
    HexIs(t, h);
    if HighSurrogate(UnitOf(h)) {
      var l := t[6..10];
      HexIs(t[6..], l);
      i, rest := Pair(h, l), t[10..];
      assert s == [92, 117] + h + ([92, 117] + l) + rest;
    } else {
      i, rest := Unit(h), t[4..];
      assert s == [92, 117] + h + rest;
    }
  }

  lemma {:induction false} StringIsItems(s: Bytes) returns (items: seq<Item>)
    requires Chars(s).Decoded?
    ensures ItemsOk(items) && s == ItemsText(items) + ([QUOTE] + Chars(s).rest) && Chars(s).text == StringBytes(items)
    decreases |s|
  {
    if Peek(s) == QUOTE {
      items := [];
      assert s == [] + ([QUOTE] + s[1..]);
    } else {
      var i, rest := FrontItem(s);
      var after := StringIsItems(rest);
      items := [i] + after;
      ReadsItem(i, rest);
      assert items[1..] == after;
      Associate(ItemText(i), ItemsText(after), [QUOTE] + Chars(rest).rest);
    }
  }

  // Escaped characters

  function HexLetter(d: nat, upper: bool): Byte
    requires d < 16
  {
    if d < 10 then 48 + d else if upper then 65 + (d - 10) else 97 + (d - 10)
  }

  function HexText(x: nat, upper: bool): Bytes
    requires x < 0x1_0000
  {
    [HexLetter(x / 0x1000, upper), HexLetter(x / 0x100 % 0x10, upper),
     HexLetter(x / 0x10 % 0x10, upper), HexLetter(x % 0x10, upper)]
  }

  lemma LetterIs(d: nat, upper: bool)
    requires d < 16
    ensures IsHex(HexLetter(d, upper)) && Nibble(HexLetter(d, upper)) == d
  {
  }

  lemma HexTextIs(x: nat, upper: bool)
    requires x < 0x1_0000
    ensures FourHex(HexText(x, upper)) && UnitOf(HexText(x, upper)) == x
  {
    hide Nibble, IsHex, HexLetter;
    LetterIs(x / 0x1000, upper);
    LetterIs(x / 0x100 % 0x10, upper);
    LetterIs(x / 0x10 % 0x10, upper);
    LetterIs(x % 0x10, upper);
    assert x / 0x100 == x / 0x10 / 0x10 && x / 0x1000 == x / 0x100 / 0x10;
  }

  // The escape of a code point: four digits, or those of its two surrogates.
  function EscapeOf(p: nat, upper: bool): Item
    requires p <= 0x10_FFFF
  {
    if p < 0x1_0000 then Unit(HexText(p, upper))
    else Pair(HexText(0xD800 + (p - 0x1_0000) / 0x400, upper), HexText(0xDC00 + (p - 0x1_0000) % 0x400, upper))
  }

  lemma EscapeIs(p: nat, upper: bool)
    requires p <= 0x10_FFFF && !Surrogate(p)
    ensures ItemOk(EscapeOf(p, upper)) && PointOf(EscapeOf(p, upper)) == p
  {
    hide HexText, UnitOf, FourHex;
    if p < 0x1_0000 {
      HexTextIs(p, upper);
    } else {
      HexTextIs(0xD800 + (p - 0x1_0000) / 0x400, upper);
      HexTextIs(0xDC00 + (p - 0x1_0000) % 0x400, upper);
    }
  }

  // The escape of any character, in either case of its digits, is read as the UTF-8 form of that
  // character.
  lemma {:induction false} EscapeIsRead(f: Flags, p: nat, upper: bool, tail: Bytes) returns (t: Bytes)
    requires p <= 0x10_FFFF && !Surrogate(p)
    ensures Value(f, [QUOTE] + (ItemText(EscapeOf(p, upper)) + ([QUOTE] + tail))) == Outcome([String(t)], true, tail)
    ensures FirstCharacter(t) == Character(p, |t|) && |t| == Shortest(p) && WellFormedCharacter(t)
  {
    hide Chars, ItemText, FirstCharacter, WellFormedCharacter, EscapeOf, PointOf, ItemOk, Utf8;
    var i := EscapeOf(p, upper);
    var s := ItemText(i) + ([QUOTE] + tail);
    EscapeIs(p, upper);
    ReadsItem(i, [QUOTE] + tail);
    QuoteEnds(tail);
    t := Utf8(p);
    EscapeBytes(p, upper);
    Utf8Decodes(p, []);
    Utf8WellFormed(p);
    assert t + [] == t && ([QUOTE] + s)[1..] == s;
  }

  lemma EscapeBytes(p: nat, upper: bool)
    requires p <= 0x10_FFFF && ItemOk(EscapeOf(p, upper)) && PointOf(EscapeOf(p, upper)) == p
    ensures ItemBytes(EscapeOf(p, upper)) == Utf8(p) && Utf8(p) + [] == Utf8(p)
  {
  }

  lemma QuoteEnds(tail: Bytes)
    ensures Chars([QUOTE] + tail) == Decoded([], tail)
  {
    assert ([QUOTE] + tail)[1..] == tail;
  }
}
