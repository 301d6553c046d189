/** JSON numbers as section 6 of RFC 8259 defines them, and that the reader accepts exactly these. */
module JsonNumbers {
  import opened Sequences
  import opened Serial
  import opened JsonText
  import opened Itoa

  // An exponent: its mark, a sign that may be missing, and at least one digit.
  datatype Power = NoPower | Power(mark: Byte, sign: Bytes, digits: Bytes)

  // A number as it is written: a fraction without digits is none.
  datatype Numeral = Numeral(minus: bool, whole: Bytes, fraction: Bytes, power: Power)

  predicate Decimals(d: Bytes) {
    forall i :: 0 <= i < |d| ==> 48 <= d[i] <= 57
  }

  predicate PowerOk(p: Power) {
    p.Power? ==>
      && (p.mark == 101 || p.mark == 69) && (p.sign == [] || p.sign == [43] || p.sign == [45])
      && p.digits != [] && Decimals(p.digits)
  }

  // No digit follows a leading zero.
  predicate NumeralOk(n: Numeral) {
    && n.whole != [] && Decimals(n.whole) && (n.whole[0] == 48 ==> |n.whole| == 1)
    && Decimals(n.fraction) && PowerOk(n.power)
  }

  function PowerText(p: Power): Bytes {
    match p
    case NoPower => []
    case Power(mark, sign, digits) => [mark] + (sign + digits)
  }

  function FractionText(d: Bytes): Bytes {
    if d == [] then [] else [46] + d
  }

  function SignText(minus: bool): Bytes {
    if minus then [45] else []
  }

  function NumeralText(n: Numeral): Bytes {
    SignText(n.minus) + (n.whole + (FractionText(n.fraction) + PowerText(n.power)))
  }

  predicate IsInteger(n: Numeral) {
    n.fraction == [] && n.power.NoPower?
  }

  // The value of a number without fraction and exponent.
  function ValueOf(n: Numeral): int {
    if n.minus then 0 - Decimal(n.whole) else Decimal(n.whole)
  }

  predicate IsSmall(n: Numeral) {
    IsInteger(n) && -0x8000_0000_0000_0000 <= ValueOf(n) < 0x1_0000_0000_0000_0000
  }

  // What is reported for an integer: the first of four kinds that holds it.
  predicate KindOf(e: Event, v: int) {
    match e
    case Uint(i) => i == v && 0 <= v < 0x1_0000_0000
    case Int(i) => i == v && -0x8000_0000 <= v <= 0
    case Uint64(i) => i == v && 0x1_0000_0000 <= v < 0x1_0000_0000_0000_0000
    case Int64(i) => i == v && -0x8000_0000_0000_0000 <= v < -0x8000_0000
    case _ => false
  }

  // A number that is an integer of at most 64 bits is reported by its value, any other by its text.
  predicate NumberMeans(n: Numeral, e: Event) {
    var v := ValueOf(n);
    if IsSmall(n) then KindOf(e, v) && e.Int? == (n.minus && v >= -0x8000_0000)
    else e == Double(NumeralText(n))
  }

  // Reading

  lemma DecimalsAre(d: Bytes)
    ensures Decimals(d) <==> AllDigits(d)
  {
    forall i | 0 <= i < |d| ensures IsDigit(d[i]) <==> 48 <= d[i] <= 57 {
    }
  }

  lemma {:induction false} ReadsWhole(whole: Bytes, rest: Bytes)
    requires whole != [] && Decimals(whole) && (whole[0] == 48 ==> |whole| == 1) && !IsDigit(Peek(rest))
    ensures IntegerPart(whole + rest) == Part(|whole|)
  {
    DecimalsAre(whole);
    DigitCountOf(whole, rest);
    assert Peek(whole + rest) == whole[0];
  }

  lemma {:induction false} ReadsFraction(d: Bytes, rest: Bytes)
    requires Decimals(d) && !IsDigit(Peek(rest)) && Peek(rest) != DOT
    ensures Fraction(FractionText(d) + rest) == Part(|FractionText(d)|)
  {
    if d == [] {
      assert [] + rest == rest;
    } else {
      var s := FractionText(d) + rest;
      DecimalsAre(d);
      DigitCountOf(d, rest);
      assert s[1..] == d + rest && Peek(d + rest) == d[0];
    }
  }

  lemma {:induction false} ReadsPower(p: Power, rest: Bytes)
    requires PowerOk(p) && NumberEnds(rest)
    ensures Exponent(PowerText(p) + rest) == Part(|PowerText(p)|)
  {
    var s := PowerText(p) + rest;
    match p
    case NoPower =>
      assert s == rest;
    case Power(mark, sign, digits) =>
      DecimalsAre(digits);
      DigitCountOf(digits, rest);
      Associate([mark], sign + digits, rest);
      Associate(sign, digits, rest);
      assert s[0] == mark && s[1..] == sign + (digits + rest);
      ReadsSigned(sign, digits + rest);
  }

  lemma ReadsSigned(sign: Bytes, after: Bytes)
    requires (sign == [] || sign == [43] || sign == [45]) && IsDigit(Peek(after))
    ensures (Peek(sign + after) == PLUS || Peek(sign + after) == MINUS) == (sign != [])
    ensures (sign + after)[|sign|..] == after && Peek((sign + after)[|sign|..]) == Peek(after)
  {
    if sign == [] {
      assert sign + after == after;
    }
  }

  lemma PowerStarts(p: Power, rest: Bytes)
    requires PowerOk(p) && NumberEnds(rest)
    ensures !IsDigit(Peek(PowerText(p) + rest)) && Peek(PowerText(p) + rest) != DOT
  {
    if p.NoPower? {
      assert PowerText(p) + rest == rest;
    }
  }

  lemma FractionStarts(d: Bytes, rest: Bytes)
    requires !IsDigit(Peek(rest))
    ensures !IsDigit(Peek(FractionText(d) + rest))
  {
    if d == [] {
      assert FractionText(d) + rest == rest;
    }
  }

  // The parts after the sign.
  lemma {:induction false} ReadsShape(f: Flags, n: Numeral, tail: Bytes)
    requires NumeralOk(n) && NumberEnds(tail)
    ensures var fraction, power := FractionText(n.fraction), PowerText(n.power);
      ShapeOf(f, n.whole + (fraction + (power + tail))) == Shape(false, |n.whole|, |n.whole| + |fraction| + |power|)
  {
    hide Fraction, Exponent, IntegerPart, NumberEnds, PowerOk, NanOrInf;
    var fraction, power := FractionText(n.fraction), PowerText(n.power);
    var u, t := n.whole + (fraction + (power + tail)), fraction + (power + tail);
    PowerStarts(n.power, tail);
    FractionStarts(n.fraction, power + tail);
    ReadsWhole(n.whole, t);
    ReadsFraction(n.fraction, power + tail);
    ReadsPower(n.power, tail);
    assert u[|n.whole|..] == t && t[|fraction|..] == power + tail;
    assert Peek(u) == n.whole[0];
  }

  // Every number of the grammar is read to its end.
  lemma {:induction false} ReadsNumeral(f: Flags, n: Numeral, tail: Bytes)
    requires NumeralOk(n) && NumberEnds(tail)
    ensures Number(f, NumeralText(n) + tail)
         == Classify(f, n.minus, false, IsInteger(n), Decimal(n.whole), NumeralText(n), tail)
  {
    hide ShapeOf, Classify, NumberEnds, PowerOk, Decimals;
    var fraction, power := FractionText(n.fraction), PowerText(n.power);
    var u := n.whole + (fraction + (power + tail));
    var s := NumeralText(n) + tail;
    NumeralStarts(n, tail);
    ReadsShape(f, n, tail);
    var length := |n.whole| + |fraction| + |power|;
    assert u[..|n.whole|] == n.whole && u[length..] == tail;
    assert s[..|s| - |tail|] == NumeralText(n);
    assert |s| - |u| + length == |s| - |tail|;
  }

  lemma NumeralStarts(n: Numeral, tail: Bytes)
    requires NumeralOk(n)
    ensures var s, u := NumeralText(n) + tail, n.whole + (FractionText(n.fraction) + (PowerText(n.power) + tail));
      (Peek(s) == MINUS) == n.minus && u == if n.minus then s[1..] else s
    ensures (|FractionText(n.fraction)| + |PowerText(n.power)| == 0) == IsInteger(n)
  {
    var fraction, power := FractionText(n.fraction), PowerText(n.power);
    Associate(n.whole, fraction + power, tail);
    Associate(fraction, power, tail);
    Associate(SignText(n.minus), n.whole + (fraction + power), tail);
    var u := n.whole + (fraction + (power + tail));
    assert NumeralText(n) + tail == SignText(n.minus) + u;
    if n.minus {
      assert ([45] + u)[1..] == u;
    } else {
      assert [] + u == u;
    }
  }

  // And only numbers of the grammar are read.

  lemma {:induction false} CountSplits(s: Bytes)
    ensures Decimals(s[..DigitCount(s)])
    decreases |s|
  {
    if s != [] && IsDigit(s[0]) {
      CountSplits(s[1..]);
      forall i | 0 <= i < DigitCount(s) ensures 48 <= s[i] <= 57 {
        if i > 0 {
          assert s[1..][..DigitCount(s[1..])][i - 1] == s[i];
        }
      }
    }
  }

  lemma {:induction false} WholeOf(u: Bytes)
    requires IntegerPart(u).Part?
    ensures var whole := u[..IntegerPart(u).length];
      whole != [] && Decimals(whole) && (whole[0] == 48 ==> |whole| == 1)
  {
    CountSplits(u);
  }

  lemma {:induction false} FractionOf(t: Bytes) returns (d: Bytes)
    requires Fraction(t).Part?
    ensures Decimals(d) && t == FractionText(d) + t[Fraction(t).length..]
  {
    if Fraction(t).length == 0 {
      d := [];
      assert t == [] + t[0..];
    } else {
      CountSplits(t[1..]);
      d := t[1..][..DigitCount(t[1..])];
      assert t == [46] + d + t[1 + |d|..];
    }
  }

  lemma {:induction false} PowerOf(t: Bytes) returns (p: Power)
    requires Exponent(t).Part?
    ensures PowerOk(p) && t == PowerText(p) + t[Exponent(t).length..]
  {
    if Exponent(t).length == 0 {
      p := NoPower;
      assert t == [] + t[0..];
    } else {
      var signed := if Peek(t[1..]) == PLUS || Peek(t[1..]) == MINUS then 2 else 1;
      CountSplits(t[signed..]);
      var d := t[signed..][..DigitCount(t[signed..])];
      p := Power(t[0], t[1..signed], d);
      assert t[1..signed] == [] || t[1..signed] == [t[1]];
      assert t == [t[0]] + (t[1..signed] + d) + t[signed + |d|..];
    }
  }

  // Fraction and exponent.
  lemma {:induction false} TailOfSplits(t: Bytes) returns (fraction: Bytes, power: Power)
    requires TailOf(t).Part?
    ensures Decimals(fraction) && PowerOk(power)
    ensures var length := TailOf(t).length;
      t == FractionText(fraction) + (PowerText(power) + t[length..])
      && length == |FractionText(fraction)| + |PowerText(power)|
  {
    hide Fraction, Exponent, PowerOk, Decimals;
    fraction := FractionOf(t);
    var r := t[Fraction(t).length..];
    power := PowerOf(r);
    assert r[Exponent(r).length..] == t[TailOf(t).length..];
    Lengths(t, FractionText(fraction), Fraction(t).length);
    Lengths(r, PowerText(power), Exponent(r).length);
  }

  lemma Lengths(t: Bytes, front: Bytes, n: nat)
    requires n <= |t| && t == front + t[n..]
    ensures |front| == n
  {
  }

  // A text whose number has a shape starts with the numeral of that shape.
  lemma {:induction false} ShapeIsNumeral(f: Flags, s: Bytes, u: Bytes) returns (n: Numeral)
    requires u == if Peek(s) == MINUS then s[1..] else s
    requires ShapeOf(f, u).Shape? && !f.nanAndInf
    ensures var shape := ShapeOf(f, u);
      && NumeralOk(n) && s == NumeralText(n) + u[shape.length..]
      && n.minus == (Peek(s) == MINUS) && n.whole == u[..shape.head] && IsInteger(n) == (shape.head == shape.length)
  {
    hide TailOf, IntegerPart, PowerOk, Decimals, Decimal, NumeralText, SignText, FractionText, PowerText;
    var shape := ShapeOf(f, u);
    WholeOf(u);
    var fraction, power := TailOfSplits(u[shape.head..]);
    n := Numeral(Peek(s) == MINUS, u[..shape.head], fraction, power);
    SignSplits(s);
    assert u == n.whole + u[shape.head..];
    assert u[shape.head..][TailOf(u[shape.head..]).length..] == u[shape.length..];
    PartsJoin(n, s, u, u[shape.head..], PowerText(power) + u[shape.length..], u[shape.length..]);
    PlainWhenWhole(n);
  }

  lemma {:induction false} NumberIsNumeral(f: Flags, s: Bytes) returns (n: Numeral)
    requires Number(f, s).Scanned? && !f.nanAndInf
    ensures NumeralOk(n) && s == NumeralText(n) + Number(f, s).rest
    ensures Number(f, s)
         == Classify(f, n.minus, false, IsInteger(n), Decimal(n.whole), NumeralText(n), Number(f, s).rest)
  {
    hide Classify, ShapeOf, PowerOk, Decimal, NumeralText, NumeralOk, IsInteger;
    var u := if Peek(s) == MINUS then s[1..] else s;
    NotSpecial(f, u);
    n := ShapeIsNumeral(f, s, u);
    var k := |s| - |u| + ShapeOf(f, u).length;
    assert s[k..] == u[ShapeOf(f, u).length..];
    Lengths(s, NumeralText(n), k);
    assert s[..k] == NumeralText(n);
  }

  lemma NotSpecial(f: Flags, u: Bytes)
    requires !f.nanAndInf && ShapeOf(f, u).Shape?
    ensures !ShapeOf(f, u).special
  {
  }

  lemma SignSplits(s: Bytes)
    ensures s == SignText(Peek(s) == MINUS) + if Peek(s) == MINUS then s[1..] else s
  {
    if Peek(s) != MINUS {
      assert [] + s == s;
    }
  }

  lemma PlainWhenWhole(n: Numeral)
    ensures (|FractionText(n.fraction)| + |PowerText(n.power)| == 0) == IsInteger(n)
  {
  }

  lemma PartsJoin(n: Numeral, s: Bytes, u: Bytes, t: Bytes, r: Bytes, rest: Bytes)
    requires s == SignText(n.minus) + u && u == n.whole + t && t == FractionText(n.fraction) + r
    requires r == PowerText(n.power) + rest
    ensures s == NumeralText(n) + rest
  {
    var fraction, power := FractionText(n.fraction), PowerText(n.power);
    Associate(fraction, power, rest);
    Associate(n.whole, fraction + power, rest);
    Associate(SignText(n.minus), n.whole + (fraction + power), rest);
  }

  // What is reported. Only a number that becomes a double can be refused, for its size.
  predicate NumberReads(f: Flags, n: Numeral, e: Event) {
    && (IsSmall(n) || !f.tooBig(NumeralText(n)))
    && if f.numbersAsStrings then e == RawNumber(NumeralText(n)) else NumberMeans(n, e)
  }

  lemma {:induction false} ClassifyMeans(f: Flags, n: Numeral, rest: Bytes)
    ensures var r := Classify(f, n.minus, false, IsInteger(n), Decimal(n.whole), NumeralText(n), rest);
      && (r.BadNumber? <==> !IsSmall(n) && f.tooBig(NumeralText(n)))
      && (r.Scanned? ==> NumberReads(f, n, r.event) && r.rest == rest)
  {
  }

  lemma {:induction false} NumberReadsOne(f: Flags, n: Numeral, e: Event, other: Event)
    requires NumberReads(f, n, e) && NumberReads(f, n, other)
    ensures e == other
  {
  }
}
