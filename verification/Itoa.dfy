/** Integers as decimal text: the printers of the writer, and that reading undoes printing. */
module Itoa {
  import opened Arithmetic
  import opened Sequences
  import opened Serial
  import opened JsonText

  function Digit(d: nat): Byte
    requires d < 10
  {
    48 + d
  }

  // The decimal digits of a number, without leading zeros.
  function Digits(v: nat): Bytes {
    if v < 10 then [Digit(v)] else Digits(v / 10) + [Digit(v % 10)]
  }

  // The last `n` decimal digits of a number, with leading zeros.
  function Padded(v: nat, n: nat): (d: Bytes)
    ensures |d| == n
  {
    if n == 0 then [] else Padded(v / 10, n - 1) + [Digit(v % 10)]
  }

  // A minus sign before a negative number.
  function IntText(i: int): Bytes {
    if i < 0 then [MINUS] + Digits(-i) else Digits(i)
  }

  lemma {:induction false} DigitsRead(v: nat)
    ensures AllDigits(Digits(v)) && Decimal(Digits(v)) == v && Digits(v) != []
    ensures Digits(v)[0] == ZERO <==> v == 0
  {
    if v >= 10 {
      DigitsRead(v / 10);
      var front := Digits(v / 10);
      assert Digits(v)[..|front|] == front;
    }
  }

  lemma {:induction false} DigitCountOf(d: Bytes, tail: Bytes)
    requires AllDigits(d) && !IsDigit(Peek(tail))
    ensures DigitCount(d + tail) == |d|
  {
    if d == [] {
      assert d + tail == tail;
    } else {
      assert (d + tail)[1..] == d[1..] + tail;
      DigitCountOf(d[1..], tail);
    }
  }

  // Nothing that could continue a number follows.
  predicate NumberEnds(tail: Bytes) {
    var c := Peek(tail);
    !IsDigit(c) && c != DOT && c != 101 && c != 69
  }

  lemma {:induction false} IntegerPartOfDigits(v: nat, tail: Bytes)
    requires !IsDigit(Peek(tail))
    ensures IntegerPart(Digits(v) + tail) == Part(|Digits(v)|)
  {
    var d := Digits(v);
    DigitsRead(v);
    DigitCountOf(d, tail);
    assert Peek(d + tail) == d[0];
    if v == 0 {
      assert d == [ZERO];
    }
  }

  // A number without fraction and exponent.
  lemma {:induction false} UnsignedPlain(f: Flags, minus: bool, s: Bytes, u: Bytes, h: nat)
    requires |u| <= |s| && h <= |u| && IsDigit(Peek(u)) && IntegerPart(u) == Part(h) && NumberEnds(u[h..])
    ensures Unsigned(f, minus, s, u) == Classify(f, minus, false, true, Decimal(u[..h]), s[..|s| - |u| + h], u[h..])
  {
    assert Fraction(u[h..]) == Part(0) && Exponent(u[h..]) == Part(0);
    assert u[h..][0..] == u[h..] && TailOf(u[h..]) == Part(0);
  }

  lemma {:induction false} PlainNumber(f: Flags, minus: bool, d: Bytes, tail: Bytes)
    requires NumberEnds(tail) && d != [] && AllDigits(d) && IntegerPart(d + tail) == Part(|d|)
    ensures var literal := (if minus then [MINUS] else []) + d;
      Number(f, literal + tail) == Classify(f, minus, false, true, Decimal(d), literal, tail)
  {
    hide Unsigned, Classify, IntegerPart, NumberEnds, Decimal;
    var literal, u := (if minus then [MINUS] else []) + d, d + tail;
    var s := literal + tail;
    assert IsDigit(Peek(u)) && u[..|d|] == d && u[|d|..] == tail;
    if minus {
      assert s[1..] == u && Peek(s) == MINUS;
    } else {
      assert s == u;
    }
    assert Number(f, s) == Unsigned(f, minus, s, u);
    UnsignedPlain(f, minus, s, u, |d|);
    assert s[..|s| - |tail|] == literal;
    assert |s| - |u| + |d| == |s| - |tail|;
  }

  // A canonical integer of any length is read exactly: as an integer of the narrowest kind that
  // holds it if and only if it fits 64 bits.
  lemma {:induction false} NumberOfDigits(f: Flags, minus: bool, v: nat, tail: Bytes)
    requires NumberEnds(tail) && !f.numbersAsStrings
    ensures var literal := (if minus then [MINUS] else []) + Digits(v);
      Number(f, literal + tail) ==
        if Fits64(minus, v) then Scanned(IntegerEvent(minus, v), tail)
        else if f.tooBig(literal) then BadNumber
        else Scanned(Double(literal), tail)
  {
    DigitsRead(v);
    IntegerPartOfDigits(v, tail);
    PlainNumber(f, minus, Digits(v), tail);
  }

  // Splitting digits

  // A number of more than `n` digits: its front, then its last `n` digits.
  lemma {:induction false} DigitsSplit(v: nat, n: nat)
    requires v >= Pow10(n)
    ensures v / Pow10(n) >= 0 && v % Pow10(n) >= 0
    ensures Digits(v) == Digits(v / Pow10(n)) + Padded(v % Pow10(n), n)
  {
    if n == 0 {
      assert Digits(v) + [] == Digits(v);
    } else {
      var p := Pow10(n - 1);
      DigitsSplit(v / 10, n - 1);
      DivDiv(v, 10, p);
      SplitStep(v, 10 * p, v / 10 % p, n);
    }
  }

  lemma SplitStep(v: nat, p: nat, x: nat, n: nat)
    requires p > 0 && n > 0 && v % p == 10 * x + v % 10
    ensures Padded(v % p, n) == Padded(x, n - 1) + [Digit(v % 10)]
  {
  }

  lemma {:induction false} PaddedSplit(v: nat, a: nat, n: nat)
    ensures v / Pow10(n) >= 0 && v % Pow10(n) >= 0
    ensures Padded(v, a + n) == Padded(v / Pow10(n), a) + Padded(v % Pow10(n), n)
  {
    if n == 0 {
      assert Padded(v, a) + [] == Padded(v, a);
    } else {
      var p := Pow10(n - 1);
      PaddedSplit(v / 10, a, n - 1);
      DivDiv(v, 10, p);
      SplitStep(v, 10 * p, v / 10 % p, n);
    }
  }

  // The table of digit pairs: entries 2k and 2k + 1 are the digits of k.
  function Lut(i: nat): Byte
    requires i < 200
  {
    if i % 2 == 0 then 48 + i / 20 else 48 + i / 2 % 10
  }

  function Opt(put: bool, c: Byte): Bytes {
    if put then [c] else []
  }

  lemma LutPair(k: nat)
    requires k < 100
    ensures Lut(k * 2) == Digit(k / 10) && Lut(k * 2 + 1) == Digit(k % 10)
  {
  }

  lemma LowDigits(v: nat)
    ensures v % 100 / 10 == v / 10 % 10 && v % 100 % 10 == v % 10
  {
    var x, e := v / 10 % 10, v % 10;
    DivDiv(v, 10, 10);
    assert v % 100 == x * 10 + e;
    DivUnique(v % 100, 10, x, e);
  }

  // The four digits that the table gives for a number below 10000.
  lemma LutFour(v: nat)
    requires v < 10000
    ensures var d1, d2 := v / 100 * 2, v % 100 * 2;
      && Lut(d1) == Digit(v / 1000) && Lut(d1 + 1) == Digit(v / 100 % 10)
      && Lut(d2) == Digit(v / 10 % 10) && Lut(d2 + 1) == Digit(v % 10)
  {
    LutPair(v / 100);
    LutPair(v % 100);
    DivDiv(v, 100, 10);
    LowDigits(v);
  }

  lemma PaddedTwo(v: nat)
    requires v < 100
    ensures Padded(v, 2) == [Digit(v / 10), Digit(v % 10)]
  {
    assert Padded(v / 10, 1) == [] + [Digit(v / 10)];
  }

  lemma Padded4(v: nat)
    requires v < 10000
    ensures Padded(v, 4) == [Digit(v / 1000), Digit(v / 100 % 10), Digit(v / 10 % 10), Digit(v % 10)]
  {
    assert Pow10(1) == 10 && Pow10(2) == 100;
    hide Digit, Padded, Pow10;
    PaddedSplit(v, 2, 2);
    PaddedTwo(v / 100);
    PaddedTwo(v % 100);
    DivDiv(v, 100, 10);
    LowDigits(v);
  }

  // At most four digits: each is written when the number is large enough to have it.
  lemma Lead4(v: nat)
    requires v < 10000
    ensures Digits(v) == Opt(v >= 1000, Digit(v / 1000)) + Opt(v >= 100, Digit(v / 100 % 10))
                         + Opt(v >= 10, Digit(v / 10 % 10)) + [Digit(v % 10)]
  {
    assert v / 10 / 10 == v / 100 && v / 100 / 10 == v / 1000;
    if v < 10 {
    } else if v < 100 {
      assert Digits(v / 10) == [Digit(v / 10 % 10)];
    } else if v < 1000 {
      assert Digits(v / 100) == [Digit(v / 100 % 10)];
      assert Digits(v / 10) == [Digit(v / 100 % 10)] + [Digit(v / 10 % 10)];
    } else {
      assert Digits(v / 1000) == [Digit(v / 1000)];
      assert Digits(v / 100) == [Digit(v / 1000)] + [Digit(v / 100 % 10)];
      assert Digits(v / 10) == [Digit(v / 1000), Digit(v / 100 % 10)] + [Digit(v / 10 % 10)];
    }
  }

  // Five to eight digits.
  lemma Lead8(v: nat)
    requires 10000 <= v < 100000000
    ensures Digits(v) == Digits(v / 10000) + Padded(v % 10000, 4)
  {
    assert Pow10(4) == 10000 by { PowersOfTen(); }
    DigitsSplit(v, 4);
  }

  lemma PowersOfTen()
    ensures Pow10(4) == 10000 && Pow10(8) == 100000000 && Pow10(16) == 10000000000000000
  {
    assert Pow10(1) == 10 && Pow10(2) == 100 && Pow10(3) == 1000;
    assert Pow10(5) == 100000 && Pow10(6) == 1000000 && Pow10(7) == 10000000;
    assert Pow10(9) == 1000000000 && Pow10(10) == 10000000000 && Pow10(11) == 100000000000;
    assert Pow10(12) == 1000000000000 && Pow10(13) == 10000000000000 && Pow10(14) == 100000000000000;
  }

  // The printers: they advance through a buffer whose first `p` bytes are written.

  method PutByte(buffer: array<Byte>, p: nat, c: Byte) returns (q: nat)
    requires p < buffer.Length
    modifies buffer
    ensures q == p + 1 && buffer[..q] == old(buffer[..p]) + [c]
  {
    buffer[p] := c;
    q := p + 1;
  }

  method PutIf(buffer: array<Byte>, p: nat, put: bool, c: Byte) returns (q: nat)
    requires p < buffer.Length
    modifies buffer
    ensures p <= q <= p + 1 && buffer[..q] == old(buffer[..p]) + Opt(put, c)
  {
    q := p;
    if put {
      q := PutByte(buffer, p, c);
    }
  }

  // Four digits with leading zeros.
  method PutFour(buffer: array<Byte>, p: nat, v: nat) returns (q: nat)
    requires v < 10000 && p + 4 <= buffer.Length
    modifies buffer
    ensures q == p + 4 && buffer[..q] == old(buffer[..p]) + Padded(v, 4)
  {
    hide Digit, Digits, Padded, Pow10, Lut;
    var d1, d2 := v / 100 * 2, v % 100 * 2;
    Padded4(v);
    LutFour(v);
    q := PutByte(buffer, p, Lut(d1));
    q := PutByte(buffer, q, Lut(d1 + 1));
    q := PutByte(buffer, q, Lut(d2));
    q := PutByte(buffer, q, Lut(d2 + 1));
  }

  // Up to four digits without leading zeros.
  method PutLead(buffer: array<Byte>, p: nat, v: nat) returns (q: nat)
    requires v < 10000 && p + 4 <= buffer.Length
    modifies buffer
    ensures p < q <= p + 4 && buffer[..q] == old(buffer[..p]) + Digits(v)
  {
    hide Digit, Digits, Padded, Pow10, Lut;
    var d1, d2 := v / 100 * 2, v % 100 * 2;
    Lead4(v);
    LutFour(v);
    q := PutIf(buffer, p, v >= 1000, Lut(d1));
    q := PutIf(buffer, q, v >= 100, Lut(d1 + 1));
    q := PutIf(buffer, q, v >= 10, Lut(d2));
    q := PutByte(buffer, q, Lut(d2 + 1));
  }

  // Up to eight digits without leading zeros.
  method PutLeadEight(buffer: array<Byte>, p: nat, v: nat) returns (q: nat)
    requires v < 100000000 && p + 8 <= buffer.Length
    modifies buffer
    ensures p < q <= p + 8 && buffer[..q] == old(buffer[..p]) + Digits(v)
  {
    hide Digit, Digits, Padded, Pow10;
    if v < 10000 {
      q := PutLead(buffer, p, v);
    } else {
      var b, c := v / 10000, v % 10000;
      Lead8(v);
      q := PutLead(buffer, p, b);
      q := PutFour(buffer, q, c);
    }
  }

  // Eight digits with leading zeros.
  method PutEight(buffer: array<Byte>, p: nat, v: nat) returns (q: nat)
    requires v < 100000000 && p + 8 <= buffer.Length
    modifies buffer
    ensures q == p + 8 && buffer[..q] == old(buffer[..p]) + Padded(v, 8)
  {
    hide Digit, Digits, Padded, Pow10;
    var b, c := v / 10000, v % 10000;
    PowersOfTen();
    PaddedSplit(v, 4, 4);
    q := PutFour(buffer, p, b);
    q := PutFour(buffer, q, c);
  }

  // Sixteen digits with leading zeros.
  method PutSixteen(buffer: array<Byte>, p: nat, v: nat) returns (q: nat)
    requires v < 10000000000000000 && p + 16 <= buffer.Length
    modifies buffer
    ensures q == p + 16 && buffer[..q] == old(buffer[..p]) + Padded(v, 16)
  {
    hide Digit, Digits, Padded, Pow10;
    var v0, v1 := v / 100000000, v % 100000000;
    PowersOfTen();
    PaddedSplit(v, 8, 8);
    Associate(old(buffer[..p]), Padded(v0, 8), Padded(v1, 8));
    q := PutEight(buffer, p, v0);
    q := PutEight(buffer, q, v1);
  }

  method U32ToA(value: U32, buffer: array<Byte>, p: nat) returns (q: nat)
    requires p + 10 <= buffer.Length
    modifies buffer
    ensures p < q <= p + 10 && buffer[..q] == old(buffer[..p]) + Digits(value)
  {
    hide Digit, Digits, Padded, Pow10;
    if value < 100000000 {
      q := PutLeadEight(buffer, p, value);
    } else {
      var a, rest := value / 100000000, value % 100000000;
      PowersOfTen();
      DigitsSplit(value, 8);
      q := PutLead(buffer, p, a);
      TwoDigits(a);
      q := PutEight(buffer, q, rest);
    }
  }

  lemma TwoDigits(a: nat)
    requires a < 100
    ensures |Digits(a)| <= 2
  {
    if a >= 10 {
      assert Digits(a) == Digits(a / 10) + [Digit(a % 10)];
    }
  }

  // Negation of a negative 32-bit value through its unsigned image.
  lemma Negate32(value: int)
    requires -0x8000_0000 <= value < 0
    ensures Wrap(0x1_0000_0000 - Wrap(value)) == -value
  {
    assert Wrap(value) == value + 0x1_0000_0000;
  }

  method I32ToA(value: int, buffer: array<Byte>, p: nat) returns (q: nat)
    requires -0x8000_0000 <= value < 0x8000_0000 && p + 11 <= buffer.Length
    modifies buffer
    ensures p < q <= p + 11 && buffer[..q] == old(buffer[..p]) + IntText(value)
  {
    hide Digits;
    var u: U32 := Wrap(value);
    q := p;
    if value < 0 {
      Negate32(value);
      q := PutByte(buffer, q, MINUS);
      u := Wrap(0x1_0000_0000 - u);
      Associate(old(buffer[..p]), [MINUS], Digits(u));
    }
    q := U32ToA(u, buffer, q);
  }

  // Nine to sixteen digits.
  method PutMiddle(value: U64, buffer: array<Byte>, p: nat) returns (q: nat)
    requires 100000000 <= value < 10000000000000000 && p + 16 <= buffer.Length
    modifies buffer
    ensures p < q <= p + 16 && buffer[..q] == old(buffer[..p]) + Digits(value)
  {
    hide Digit, Digits, Padded, Pow10;
    var v0, v1 := value / 100000000, value % 100000000;
    PowersOfTen();
    DigitsSplit(value, 8);
    q := PutLeadEight(buffer, p, v0);
    q := PutEight(buffer, q, v1);
  }

  // Seventeen to twenty digits.
  method PutLong(value: U64, buffer: array<Byte>, p: nat) returns (q: nat)
    requires value >= 10000000000000000 && p + 20 <= buffer.Length
    modifies buffer
    ensures p < q <= p + 20 && buffer[..q] == old(buffer[..p]) + Digits(value)
  {
    hide Digit, Digits, Padded, Pow10;
    var a, rest := value / 10000000000000000, value % 10000000000000000;
    PowersOfTen();
    DigitsSplit(value, 16);
    q := PutLead(buffer, p, a);
    q := PutSixteen(buffer, q, rest);
  }

  method U64ToA(value: U64, buffer: array<Byte>, p: nat) returns (q: nat)
    requires p + 20 <= buffer.Length
    modifies buffer
    ensures p < q <= p + 20 && buffer[..q] == old(buffer[..p]) + Digits(value)
  {
    if value < 100000000 {
      q := PutLeadEight(buffer, p, value);
    } else if value < 10000000000000000 {
      q := PutMiddle(value, buffer, p);
    } else {
      q := PutLong(value, buffer, p);
    }
  }

  lemma Negate64(value: int)
    requires -0x8000_0000_0000_0000 <= value < 0
    ensures (0x1_0000_0000_0000_0000 - value % 0x1_0000_0000_0000_0000) % 0x1_0000_0000_0000_0000 == -value
  {
    assert value % 0x1_0000_0000_0000_0000 == value + 0x1_0000_0000_0000_0000;
  }

  method I64ToA(value: int, buffer: array<Byte>, p: nat) returns (q: nat)
    requires -0x8000_0000_0000_0000 <= value < 0x8000_0000_0000_0000 && p + 21 <= buffer.Length
    modifies buffer
    ensures p < q <= p + 21 && buffer[..q] == old(buffer[..p]) + IntText(value)
  {
    hide Digits;
    var u: U64 := value % 0x1_0000_0000_0000_0000;
    q := p;
    if value < 0 {
      Negate64(value);
      q := PutByte(buffer, q, MINUS);
      u := (0x1_0000_0000_0000_0000 - u) % 0x1_0000_0000_0000_0000;
      Associate(old(buffer[..p]), [MINUS], Digits(u));
    }
    q := U64ToA(u, buffer, q);
  }
}
