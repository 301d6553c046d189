/** UTF-8 as sections 3 and 4 of RFC 3629 define it, and that the reader writes code points in it. */
module Utf8Form {
  import opened Serial
  import opened JsonText

  // Decoding

  // A byte that continues a character: its two high bits are 10.
  predicate Continues(c: Byte) {
    c / 0x40 == 2
  }

  // The bits of a byte below `m`.
  function Bits(c: Byte, m: nat): nat
    requires m > 0
  {
    c as int % m
  }

  datatype Character = NoCharacter | Character(point: nat, length: nat)

  // The character at the front of a text: how many bits of its first byte are set before a clear one
  // says how many bytes it has; the other bits of the first and six of each further byte are the
  // bits of the code point, the highest first.
  function FirstCharacter(b: Bytes): Character {
    if b == [] then NoCharacter
    else if b[0] / 0x80 == 0 then Character(b[0], 1)
    else if |b| >= 2 && b[0] / 0x20 == 6 && Continues(b[1]) then
      Character(Bits(b[0], 0x20) * 0x40 + Bits(b[1], 0x40), 2)
    else if |b| >= 3 && b[0] / 0x10 == 14 && Continues(b[1]) && Continues(b[2]) then
      Character((Bits(b[0], 0x10) * 0x40 + Bits(b[1], 0x40)) * 0x40 + Bits(b[2], 0x40), 3)
    else if |b| >= 4 && b[0] / 8 == 30 && Continues(b[1]) && Continues(b[2]) && Continues(b[3]) then
      Character(((Bits(b[0], 8) * 0x40 + Bits(b[1], 0x40)) * 0x40 + Bits(b[2], 0x40)) * 0x40 + Bits(b[3], 0x40), 4)
    else NoCharacter
  }

  // The number of bytes that a code point needs.
  function Shortest(p: nat): nat {
    if p < 0x80 then 1 else if p < 0x800 then 2 else if p < 0x1_0000 then 3 else 4
  }

  predicate Surrogate(p: nat) {
    0xD800 <= p <= 0xDFFF
  }

  // The syntax of one character, byte range by byte range.
  predicate WellFormedCharacter(t: Bytes) {
    || (|t| == 1 && t[0] <= 0x7F)
    || (|t| == 2 && 0xC2 <= t[0] <= 0xDF && 0x80 <= t[1] <= 0xBF)
    || (|t| == 3 && t[0] == 0xE0 && 0xA0 <= t[1] <= 0xBF && 0x80 <= t[2] <= 0xBF)
    || (|t| == 3 && 0xE1 <= t[0] <= 0xEC && 0x80 <= t[1] <= 0xBF && 0x80 <= t[2] <= 0xBF)
    || (|t| == 3 && t[0] == 0xED && 0x80 <= t[1] <= 0x9F && 0x80 <= t[2] <= 0xBF)
    || (|t| == 3 && 0xEE <= t[0] <= 0xEF && 0x80 <= t[1] <= 0xBF && 0x80 <= t[2] <= 0xBF)
    || (|t| == 4 && t[0] == 0xF0 && 0x90 <= t[1] <= 0xBF && 0x80 <= t[2] <= 0xBF && 0x80 <= t[3] <= 0xBF)
    || (|t| == 4 && 0xF1 <= t[0] <= 0xF3 && 0x80 <= t[1] <= 0xBF && 0x80 <= t[2] <= 0xBF && 0x80 <= t[3] <= 0xBF)
    || (|t| == 4 && t[0] == 0xF4 && 0x80 <= t[1] <= 0x8F && 0x80 <= t[2] <= 0xBF && 0x80 <= t[3] <= 0xBF)
  }

  // Encoding

  // What the reader writes for a code point is read back as that code point, whatever follows, and
  // is as short as can be.
  lemma Utf8Decodes(p: nat, rest: Bytes)
    requires p <= 0x10_FFFF
    ensures FirstCharacter(Utf8(p) + rest) == Character(p, |Utf8(p)|) && |Utf8(p)| == Shortest(p)
  {
    var b := Utf8(p) + rest;
    if p < 0x80 {
    } else if p < 0x800 {
      TwoBytes(p / 0x40, p % 0x40);
    } else if p < 0x1_0000 {
      ThreeBytes(p / 0x1000, p / 0x40 % 0x40, p % 0x40);
      SplitTwice(p);
    } else {
      FourBytes(p / 0x4_0000, p / 0x1000 % 0x40, p / 0x40 % 0x40, p % 0x40);
      SplitTwice(p);
      SplitThrice(p);
    }
  }

  lemma TwoBytes(x: nat, y: nat)
    requires x < 0x20 && y < 0x40
    ensures (0xC0 + x) / 0x80 != 0 && (0xC0 + x) / 0x20 == 6 && (0xC0 + x) % 0x20 == x
    ensures (0x80 + y) / 0x40 == 2 && (0x80 + y) % 0x40 == y
  {
  }

  lemma ThreeBytes(x: nat, y: nat, z: nat)
    requires x < 0x10 && y < 0x40 && z < 0x40
    ensures (0xE0 + x) / 0x80 != 0 && (0xE0 + x) / 0x20 != 6 && (0xE0 + x) / 0x10 == 14 && (0xE0 + x) % 0x10 == x
    ensures (0x80 + y) / 0x40 == 2 && (0x80 + y) % 0x40 == y && (0x80 + z) / 0x40 == 2 && (0x80 + z) % 0x40 == z
  {
  }

  lemma FourBytes(w: nat, x: nat, y: nat, z: nat)
    requires w < 8 && x < 0x40 && y < 0x40 && z < 0x40
    ensures (0xF0 + w) / 0x80 != 0 && (0xF0 + w) / 0x20 != 6 && (0xF0 + w) / 0x10 != 14
    ensures (0xF0 + w) / 8 == 30 && (0xF0 + w) % 8 == w
    ensures (0x80 + x) / 0x40 == 2 && (0x80 + x) % 0x40 == x && (0x80 + y) / 0x40 == 2 && (0x80 + y) % 0x40 == y
    ensures (0x80 + z) / 0x40 == 2 && (0x80 + z) % 0x40 == z
  {
  }

  lemma SplitTwice(p: nat)
    ensures (p / 0x1000 * 0x40 + p / 0x40 % 0x40) * 0x40 + p % 0x40 == p
  {
    assert p / 0x40 / 0x40 == p / 0x1000;
  }

  lemma SplitThrice(p: nat)
    ensures p / 0x4_0000 * 0x40 + p / 0x1000 % 0x40 == p / 0x1000
  {
    assert p / 0x1000 / 0x40 == p / 0x4_0000;
  }

  // No other bytes are read as it.
  lemma Utf8Only(p: nat, t: Bytes)
    requires p <= 0x10_FFFF && FirstCharacter(t) == Character(p, |t|) && |t| == Shortest(p)
    ensures t == Utf8(p)
  {
    hide Bits;
    if |t| == 2 {
      Continued(Bits(t[0], 0x20), t[1]);
    } else if |t| == 3 {
      Continued(Bits(t[0], 0x10) * 0x40 + Bits(t[1], 0x40), t[2]);
      Continued(Bits(t[0], 0x10), t[1]);
      SplitTwice(p);
    } else if |t| == 4 {
      var high := Bits(t[0], 8) * 0x40 + Bits(t[1], 0x40);
      Continued(high * 0x40 + Bits(t[2], 0x40), t[3]);
      Continued(high, t[2]);
      Continued(Bits(t[0], 8), t[1]);
      SplitTwice(p);
      SplitThrice(p);
    }
    FirstBits(t[0]);
  }

  lemma Continued(x: nat, c: Byte)
    requires Continues(c)
    ensures c == 0x80 + Bits(c, 0x40) && Bits(c, 0x40) < 0x40
    ensures (x * 0x40 + Bits(c, 0x40)) / 0x40 == x && (x * 0x40 + Bits(c, 0x40)) % 0x40 == Bits(c, 0x40)
  {
  }

  lemma FirstBits(c: Byte)
    ensures c / 0x20 == 6 ==> c == 0xC0 + Bits(c, 0x20)
    ensures c / 0x10 == 14 ==> c == 0xE0 + Bits(c, 0x10)
    ensures c / 8 == 30 ==> c == 0xF0 + Bits(c, 8)
  {
  }

  // It is a character of the syntax, unless the code point is a surrogate.
  lemma Utf8WellFormed(p: nat)
    requires p <= 0x10_FFFF
    ensures WellFormedCharacter(Utf8(p)) <==> !Surrogate(p)
  {
  }
}
