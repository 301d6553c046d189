/** Patterns: how they are written, what they mean, and that reading them gives that meaning. */
module RegexPattern {
  import opened RegexLanguage
  import opened RegexSyntax
  import opened Sequences

  // A character as it is written: itself, or a backslash and a letter.
  datatype Glyph = Plain(c: CodePoint) | Escaped(letter: CodePoint)

  // In a class: single characters and ranges.
  datatype Item = Single(x: Glyph) | Between(x: Glyph, y: Glyph)

  // A class may end with a dash that stands for itself.
  datatype ClassText = ClassText(negated: bool, items: seq<Item>, dash: bool)

  datatype Quantifier = Question | Asterisk | PlusSign | Exactly(n: nat) | AtLeast(n: nat) | Range(n: nat, m: nat)

  datatype Factor = Character(x: Glyph) | Dot | Brackets(k: ClassText) | Group(body: Choice)

  datatype Piece = Piece(factor: Factor, quantifiers: seq<Quantifier>)

  datatype Branch = Last(p: Piece) | More(p: Piece, rest: Branch)

  datatype Choice = Only(b: Branch) | Or(b: Branch, rest: Choice)

  datatype Pattern = Pattern(begin: bool, body: Choice, end: bool)

  // What may be written

  predicate GlyphOk(x: Glyph) {
    match x
    case Plain(c) => c !in SPECIAL || c == ']' as nat || c == '}' as nat
    case Escaped(e) => EscapeOf(e).Some?
  }

  predicate ClassGlyphOk(x: Glyph) {
    match x
    case Plain(c) => c != ']' as nat && c != '\\' as nat && c != '^' as nat && c != DASH
    case Escaped(e) => e == 'b' as nat || EscapeOf(e).Some?
  }

  predicate ItemOk(i: Item) {
    ClassGlyphOk(i.x) && (i.Between? ==> ClassGlyphOk(i.y))
  }

  predicate ClassOk(k: ClassText) {
    (k.items != [] || k.dash) && forall i :: i in k.items ==> ItemOk(i)
  }

  predicate QuantifierOk(q: Quantifier) {
    match q
    case Exactly(n) => 0 < n < INFINITY
    case AtLeast(n) => n < INFINITY
    case Range(n, m) => n <= m < INFINITY && m > 0
    case _ => true
  }

  predicate FactorOk(f: Factor) {
    match f
    case Character(x) => GlyphOk(x)
    case Dot => true
    case Brackets(k) => ClassOk(k)
    case Group(body) => ChoiceOk(body)
  }

  predicate PieceOk(p: Piece) {
    FactorOk(p.factor) && forall q :: q in p.quantifiers ==> QuantifierOk(q)
  }

  predicate BranchOk(b: Branch) {
    PieceOk(b.p) && (b.More? ==> BranchOk(b.rest))
  }

  predicate ChoiceOk(a: Choice) {
    BranchOk(a.b) && (a.Or? ==> ChoiceOk(a.rest))
  }

  // What it means

  function CharOf(x: Glyph): CodePoint {
    match x
    case Plain(c) => c
    case Escaped(e) => if EscapeOf(e).Some? then EscapeOf(e).value else 8
  }

  function SpanOf(i: Item): Span {
    match i
    case Single(x) => Span(CharOf(x), CharOf(x))
    case Between(x, y) => Span(CharOf(x), CharOf(y))
  }

  function SpansOf(items: seq<Item>): (s: seq<Span>)
    ensures |s| == |items|
  {
    if items == [] then [] else SpansOf(items[..|items| - 1]) + [SpanOf(items[|items| - 1])]
  }

  function ClassOf(k: ClassText): Class {
    Class(k.negated, SpansOf(k.items) + if k.dash then [Span(DASH, DASH)] else [])
  }

  function Quantified(re: Re, q: Quantifier): Re
    requires QuantifierOk(q)
  {
    match q
    case Question => Opt(re)
    case Asterisk => Star(re)
    case PlusSign => Plus(re)
    case Exactly(n) => Expand(re, n, Finite(n))
    case AtLeast(n) => Expand(re, n, Infinite)
    case Range(n, m) => Expand(re, n, Finite(m))
  }

  function QuantifiedAll(re: Re, qs: seq<Quantifier>): Re
    requires forall q :: q in qs ==> QuantifierOk(q)
    decreases |qs|
  {
    if qs == [] then re else QuantifiedAll(Quantified(re, qs[0]), qs[1..])
  }

  function FactorRe(f: Factor): Re
    requires FactorOk(f)
  {
    match f
    case Character(x) => One(Literal(CharOf(x)))
    case Dot => One(AnyOne)
    case Brackets(k) => One(OneOf(ClassOf(k)))
    case Group(body) => ChoiceRe(body)
  }

  function PieceRe(p: Piece): Re
    requires PieceOk(p)
  {
    QuantifiedAll(FactorRe(p.factor), p.quantifiers)
  }

  function BranchRe(b: Branch): Re
    requires BranchOk(b)
  {
    match b
    case Last(p) => PieceRe(p)
    case More(p, rest) => Cat(PieceRe(p), BranchRe(rest))
  }

  function ChoiceRe(a: Choice): Re
    requires ChoiceOk(a)
  {
    match a
    case Only(b) => BranchRe(b)
    case Or(b, rest) => Alt(BranchRe(b), ChoiceRe(rest))
  }

  // How it is written

  function GlyphText(x: Glyph): Word {
    match x
    case Plain(c) => [c]
    case Escaped(e) => ['\\' as nat, e]
  }

  function ItemText(i: Item): Word {
    match i
    case Single(x) => GlyphText(x)
    case Between(x, y) => GlyphText(x) + [DASH] + GlyphText(y)
  }

  function ItemsText(items: seq<Item>): Word {
    if items == [] then [] else ItemText(items[0]) + ItemsText(items[1..])
  }

  function ClassBody(k: ClassText): Word {
    ItemsText(k.items) + (if k.dash then [DASH] else []) + [']' as nat]
  }

  function Numeral(n: nat): Word {
    if n < 10 then [('0' as nat + n) as CodePoint] else Numeral(n / 10) + [('0' as nat + n % 10) as CodePoint]
  }

  function QuantifierText(q: Quantifier): Word {
    match q
    case Question => ['?' as nat]
    case Asterisk => ['*' as nat]
    case PlusSign => ['+' as nat]
    case Exactly(n) => ['{' as nat] + Numeral(n) + ['}' as nat]
    case AtLeast(n) => ['{' as nat] + Numeral(n) + [',' as nat, '}' as nat]
    case Range(n, m) => ['{' as nat] + Numeral(n) + [',' as nat] + Numeral(m) + ['}' as nat]
  }

  function QuantifiersText(qs: seq<Quantifier>): Word {
    if qs == [] then [] else QuantifierText(qs[0]) + QuantifiersText(qs[1..])
  }

  function FactorText(f: Factor): Word {
    match f
    case Character(x) => GlyphText(x)
    case Dot => ['.' as nat]
    case Brackets(k) => ['[' as nat] + (if k.negated then ['^' as nat] else []) + ClassBody(k)
    case Group(body) => ['(' as nat] + ChoiceText(body) + [')' as nat]
  }

  function PieceText(p: Piece): Word {
    FactorText(p.factor) + QuantifiersText(p.quantifiers)
  }

  function BranchText(b: Branch): Word {
    match b
    case Last(p) => PieceText(p)
    case More(p, rest) => PieceText(p) + BranchText(rest)
  }

  function ChoiceText(a: Choice): Word {
    match a
    case Only(b) => BranchText(b)
    case Or(b, rest) => BranchText(b) + ['|' as nat] + ChoiceText(rest)
  }

  function Text(p: Pattern): Word {
    (if p.begin then ['^' as nat] else []) + ChoiceText(p.body) + (if p.end then ['$' as nat] else [])
  }

  // Reading a class

  lemma GlyphNotDash(x: Glyph)
    requires ClassGlyphOk(x)
    ensures CharOf(x) != DASH
  {
  }

  lemma {:induction false} ReadsClassGlyph(x: Glyph, s: Word, negated: bool, step: nat, spans: seq<Span>)
    requires ClassGlyphOk(x)
    ensures var (more, next) := Added(spans, step, CharOf(x));
      ClassLoop(GlyphText(x) + s, negated, step, spans) == ClassLoop(s, negated, next, more)
  {
    var w := GlyphText(x) + s;
    if x.Plain? {
      assert w[0] == x.c && w[1..] == s;
    } else {
      assert w[0] == '\\' as nat && w[1..] == [x.letter] + s && w[1..][0] == x.letter && w[2..] == s &&
        w[1..][1..] == s;
      EscapeNotB();
    }
  }

  lemma EscapeNotB()
    ensures EscapeOf('b' as nat).None?
  {
  }

  lemma {:induction false} ReadsItem(i: Item, s: Word, negated: bool, step: nat, spans: seq<Span>)
    requires ItemOk(i) && step <= 1
    ensures ClassLoop(ItemText(i) + s, negated, step, spans)
         == ClassLoop(s, negated, if i.Single? then 1 else 0, spans + [SpanOf(i)])
  {
    GlyphNotDash(i.x);
    match i
    case Single(x) => ReadsClassGlyph(x, s, negated, step, spans);
    case Between(x, y) =>
      var rest := GlyphText(y) + s;
      var first := spans + [Span(CharOf(x), CharOf(x))];
      assert ItemText(i) + s == GlyphText(x) + ([DASH] + rest);
      ReadsClassGlyph(x, [DASH] + rest, negated, step, spans);
      assert ([DASH] + rest)[0] == DASH && ([DASH] + rest)[1..] == rest;
      ReadsClassGlyph(y, s, negated, 2, first);
      assert first[..|first| - 1] == spans;
  }

  lemma {:induction false} SpansSnoc(done: seq<Item>, i: Item)
    ensures SpansOf(done + [i]) == SpansOf(done) + [SpanOf(i)]
  {
    assert (done + [i])[..|done|] == done;
  }

  lemma {:induction false} ItemsCons(items: seq<Item>, s: Word)
    requires items != []
    ensures ItemsText(items) + s == ItemText(items[0]) + (ItemsText(items[1..]) + s)
  {
  }

  lemma FirstMoved<T>(done: seq<T>, items: seq<T>)
    requires items != []
    ensures done + [items[0]] + items[1..] == done + items
  {
  }

  lemma {:induction false} ReadsItems(done: seq<Item>, items: seq<Item>, s: Word, negated: bool, step: nat)
      returns (last: nat)
    requires (forall i :: i in items ==> ItemOk(i)) && step <= 1 && (step == 1 ==> done != [])
    ensures last <= 1 && (last == 1 ==> done + items != [])
    ensures ClassLoop(ItemsText(items) + s, negated, step, SpansOf(done)) ==
      ClassLoop(s, negated, last, SpansOf(done + items))
    decreases |items|
  {
    if items == [] {
      last := step;
      assert ItemsText(items) + s == s && done + items == done;
    } else {
      var i, rest := items[0], ItemsText(items[1..]) + s;
      ItemsCons(items, s);
      ReadsItem(i, rest, negated, step, SpansOf(done));
      SpansSnoc(done, i);
      FirstMoved(done, items);
      last := ReadsItems(done + [i], items[1..], s, negated, if i.Single? then 1 else 0);
    }
  }

  // The end of a class, after its items.
  lemma {:induction false} ReadsClassEnd(dash: bool, tail: Word, negated: bool, step: nat, spans: seq<Span>)
    requires step <= 1 && ((dash && step == 0) || spans != [])
    ensures ClassLoop((if dash then [DASH] else []) + ([']' as nat] + tail), negated, step, spans)
         == Classed(Class(negated, spans + if dash then [Span(DASH, DASH)] else []), tail)
  {
    var close: Word := [']' as nat] + tail;
    var rest, own: seq<Span> := (if dash then [DASH] else []) + close, if dash then [Span(DASH, DASH)] else [];
    assert close[0] == ']' as nat && close[1..] == tail;
    if dash {
      assert rest[0] == DASH && rest[1..] == close;
    } else {
      assert rest == close && spans + own == spans;
    }
  }

  lemma {:induction false} ReadsClassBody(k: ClassText, tail: Word)
    requires ClassOk(k)
    ensures ClassLoop(ClassBody(k) + tail, k.negated, 0, []) == Classed(ClassOf(k), tail)
  {
    var rest: Word := (if k.dash then [DASH] else []) + ([']' as nat] + tail);
    BodyText(k, tail, rest);
    var last := ReadsItems([], k.items, rest, k.negated, 0);
    assert [] + k.items == k.items;
    ReadsClassEnd(k.dash, tail, k.negated, last, SpansOf(k.items));
  }

  lemma {:induction false} BodyText(k: ClassText, tail: Word, rest: Word)
    requires rest == (if k.dash then [DASH] else []) + ([']' as nat] + tail)
    ensures ClassBody(k) + tail == ItemsText(k.items) + rest
  {
  }

  lemma {:induction false} FirstOfClass(k: ClassText, tail: Word)
    requires ClassOk(k)
    ensures var w := ClassBody(k) + tail; w != [] && w[0] != '^' as nat
  {
    var w := ClassBody(k) + tail;
    if k.items == [] {
      assert w == [DASH] + ([']' as nat] + tail) && w[0] == DASH;
    } else {
      var x, rest := k.items[0].x, (if k.dash then [DASH] else []) + [']' as nat] + tail;
      assert w == ItemsText(k.items) + rest;
      ItemsCons(k.items, rest);
      assert k.items[0] in k.items;
      assert w[0] == ItemText(k.items[0])[0] == GlyphText(x)[0];
    }
  }

  lemma {:induction false} ReadsClass(k: ClassText, tail: Word)
    requires ClassOk(k)
    ensures ParseClass((if k.negated then ['^' as nat] else []) + ClassBody(k) + tail) == Classed(ClassOf(k), tail)
  {
    var body := ClassBody(k) + tail;
    var w := (if k.negated then ['^' as nat] else []) + ClassBody(k) + tail;
    ReadsClassBody(k, tail);
    FirstOfClass(k, tail);
    if k.negated {
      assert w[0] == '^' as nat && w[1..] == body;
    } else {
      assert w == body;
    }
  }

  // Reading a number

  lemma {:induction false} ReadsDigit(r: nat, d: nat, rest: Word)
    requires d < 10 && r * 10 + d <= INFINITY
    ensures UnsignedFrom(r, ['0' as nat + d] + rest) == UnsignedFrom(r * 10 + d, rest)
  {
    var w: Word := ['0' as nat + d] + rest;
    assert w[0] == '0' as nat + d && w[1..] == rest;
  }

  lemma {:induction false} ReadsDigits(n: nat, rest: Word)
    requires n <= INFINITY
    ensures StartsWithDigit(Numeral(n) + rest) && Unsigned(Numeral(n) + rest) == UnsignedFrom(n, rest)
  {
    var w := Numeral(n) + rest;
    if n < 10 {
      assert w[0] == '0' as nat + n && w[1..] == rest;
    } else {
      var d: Word := ['0' as nat + n % 10];
      Associate(Numeral(n / 10), d, rest);
      ReadsDigits(n / 10, d + rest);
      ReadsDigit(n / 10, n % 10, rest);
    }
  }

  lemma {:induction false} ReadsNumber(n: nat, rest: Word)
    requires n <= INFINITY && !StartsWithDigit(rest)
    ensures StartsWithDigit(Numeral(n) + rest) && Unsigned(Numeral(n) + rest) == Count(n, rest)
  {
    ReadsDigits(n, rest);
  }

  // A count is read as what it says if and only if it fits 32 bits.
  lemma {:induction false} CountExact(n: nat, rest: Word)
    requires !StartsWithDigit(rest)
    ensures Unsigned(Numeral(n) + rest) == Count(n, rest) <==> n <= INFINITY
  {
    if n <= INFINITY {
      ReadsNumber(n, rest);
    }
  }

  // One that does not fit, whose digits but the last do, is refused if and only if that digit is
  // above five; otherwise it is read as its low 32 bits.
  lemma {:induction false} CountTooLarge(q: nat, d: nat)
    requires 429496730 <= q <= INFINITY && d < 10
    ensures Unsigned(Numeral(10 * q + d)) ==
      if d > 5 then BadCount else Count((10 * q + d) % 0x1_0000_0000, [])
  {
    var last: Word := ['0' as nat + d];
    assert (10 * q + d) / 10 == q && (10 * q + d) % 10 == d;
    assert Numeral(10 * q + d) == Numeral(q) + last;
    ReadsDigits(q, last);
    assert last[1..] == [];
  }

  predicate Counted(q: Quantifier) {
    q.Exactly? || q.AtLeast? || q.Range?
  }

  function UpperOf(q: Quantifier): nat
    requires Counted(q)
  {
    match q
    case Exactly(n) => n
    case AtLeast(_) => INFINITY
    case Range(_, m) => m
  }

  lemma {:induction false} ReadsBounds(q: Quantifier, tail: Word)
    requires Counted(q) && QuantifierOk(q)
    ensures ParseBounds(QuantifierText(q)[1..] + tail) == Bounds(q.n, UpperOf(q), ['}' as nat] + tail)
  {
    var close: Word := ['}' as nat] + tail;
    match q
    case Exactly(n) =>
      assert QuantifierText(q)[1..] + tail == Numeral(n) + close;
      ReadsNumber(n, close);
    case AtLeast(n) =>
      var rest: Word := [',' as nat] + close;
      assert QuantifierText(q)[1..] + tail == Numeral(n) + rest;
      ReadsNumber(n, rest);
      assert rest[1..] == close;
    case Range(n, m) => ReadsRange(n, m, tail);
  }

  lemma {:induction false} ReadsRange(n: nat, m: nat, tail: Word)
    requires n <= m < INFINITY
    ensures ParseBounds(QuantifierText(Range(n, m))[1..] + tail) == Bounds(n, m, ['}' as nat] + tail)
  {
    var close: Word := ['}' as nat] + tail;
    var rest: Word := [',' as nat] + (Numeral(m) + close);
    RangeText(n, m, tail);
    ReadsNumber(n, rest);
    ReadsNumber(m, close);
    assert rest[0] == ',' as nat && rest[1..] == Numeral(m) + close;
  }

  lemma {:induction false} RangeText(n: nat, m: nat, tail: Word)
    ensures QuantifierText(Range(n, m))[1..] + tail ==
      Numeral(n) + ([',' as nat] + (Numeral(m) + (['}' as nat] + tail)))
  {
  }

  // Reading atoms and quantifiers

  lemma {:induction false} ReadsPlain(k: Stacks, c: CodePoint, tail: Word)
    requires GlyphOk(Plain(c))
    ensures Run(k, [c] + tail) == Run(Operand(k, One(Literal(c))), tail)
  {
    var w := [c] + tail;
    assert w[0] == c && w[1..] == tail;
    forall i | 0 <= i < |SPECIAL| && c == SPECIAL[i] ensures c == ']' as nat || c == '}' as nat {
      assert c in SPECIAL;
    }
    assert SPECIAL[0] == '^' as nat && SPECIAL[1] == '$' as nat && SPECIAL[2] == '|' as nat && SPECIAL[3] == '(' as nat;
    assert SPECIAL[4] == ')' as nat && SPECIAL[5] == '?' as nat && SPECIAL[6] == '*' as nat && SPECIAL[7] == '+' as nat;
    assert SPECIAL[8] == '.' as nat && SPECIAL[9] == '[' as nat && SPECIAL[11] == '{' as nat;
    assert SPECIAL[13] == '\\' as nat;
    assert Step(k, w) == Next(Operand(k, One(Literal(c))), tail);
  }

  lemma {:induction false} ReadsEscaped(k: Stacks, e: CodePoint, tail: Word)
    requires GlyphOk(Escaped(e))
    ensures Run(k, ['\\' as nat, e] + tail) == Run(Operand(k, One(Literal(CharOf(Escaped(e))))), tail)
  {
    var w: Word := ['\\' as nat, e] + tail;
    assert w[0] == '\\' as nat && w[1..] == [e] + tail && ([e] + tail)[0] == e && ([e] + tail)[1..] == tail;
    assert Step(k, w) == Next(Operand(k, One(Literal(CharOf(Escaped(e))))), tail);
  }

  lemma {:induction false} ReadsBrackets(k: Stacks, b: ClassText, tail: Word)
    requires ClassOk(b)
    ensures Run(k, FactorText(Brackets(b)) + tail) == Run(Operand(k, One(OneOf(ClassOf(b)))), tail)
  {
    hide ClassBody, ClassOf, Operand, ParseClass;
    var w := FactorText(Brackets(b)) + tail;
    var body := (if b.negated then ['^' as nat] else []) + ClassBody(b) + tail;
    ReadsClass(b, tail);
    assert w[0] == '[' as nat && w[1..] == body;
    assert Step(k, w) == Next(Operand(k, One(OneOf(ClassOf(b)))), tail);
  }

  // A quantifier changes the topmost operand.
  function Replaced(k: Stacks, re: Re): Stacks
    requires k.trees.Cons?
  {
    k.(trees := Cons(re, k.trees.tail))
  }

  function Top(k: Stacks): Re
    requires k.trees.Cons?
  {
    k.trees.head
  }

  lemma {:induction false} ReadsCounted(k: Stacks, q: Quantifier, tail: Word)
    requires Counted(q) && QuantifierOk(q) && k.trees.Cons?
    ensures Run(k, QuantifierText(q) + tail) == Run(Replaced(k, Quantified(Top(k), q)), tail)
  {
    hide ParseBounds, Numeral, Expand;
    var w := QuantifierText(q) + tail;
    ReadsBounds(q, tail);
    assert w[0] == '{' as nat && w[1..] == QuantifierText(q)[1..] + tail;
    var close: Word := ['}' as nat] + tail;
    assert close[0] == '}' as nat && close[1..] == tail;
    assert Step(k, w) == Brace(k, w[1..]) == Next(Replaced(k, Quantified(Top(k), q)), tail);
  }

  lemma {:induction false} ReadsQuantifier(k: Stacks, q: Quantifier, tail: Word)
    requires QuantifierOk(q) && k.trees.Cons?
    ensures Run(k, QuantifierText(q) + tail) == Run(Replaced(k, Quantified(Top(k), q)), tail)
  {
    if Counted(q) {
      ReadsCounted(k, q, tail);
    } else {
      var w := QuantifierText(q) + tail;
      assert w[0] == QuantifierText(q)[0] && w[1..] == tail;
      assert Step(k, w) == Next(Replaced(k, Quantified(Top(k), q)), tail);
    }
  }

  lemma {:induction false} ReadsQuantifiers(k: Stacks, qs: seq<Quantifier>, tail: Word)
    requires (forall q :: q in qs ==> QuantifierOk(q)) && k.trees.Cons?
    ensures Run(k, QuantifiersText(qs) + tail) == Run(Replaced(k, QuantifiedAll(Top(k), qs)), tail)
    decreases |qs|
  {
    if qs == [] {
      assert QuantifiersText(qs) + tail == tail && Replaced(k, Top(k)) == k;
    } else {
      var next := Replaced(k, Quantified(Top(k), qs[0]));
      Associate(QuantifierText(qs[0]), QuantifiersText(qs[1..]), tail);
      ReadsQuantifier(k, qs[0], QuantifiersText(qs[1..]) + tail);
      ReadsQuantifiers(next, qs[1..], tail);
    }
  }

  // Reading branches and choices

  // At the beginning of a choice.
  predicate Fresh(k: Stacks) {
    k.counts.Cons? && k.counts.head == 0 && (k.ops.Nil? || !k.ops.head.Concatenation?)
  }

  function Pieces(b: Branch): nat {
    if b.Last? then 1 else 1 + Pieces(b.rest)
  }

  // The stacks after the operands of a branch, before any of them is concatenated.
  function AfterBranch(k: Stacks, b: Branch): Stacks
    requires BranchOk(b)
    decreases b
  {
    match b
    case Last(p) => Operand(k, PieceRe(p))
    case More(p, rest) => AfterBranch(Operand(k, PieceRe(p)), rest)
  }

  // A branch has been read up to a bar.
  function Barred(k: Stacks, re: Re): Stacks
    requires k.counts.Cons?
  {
    k.(trees := Cons(re, k.trees), ops := Cons(Alternation, k.ops), counts := Cons(0, k.counts.tail))
  }

  function AfterChoice(k: Stacks, a: Choice): Stacks
    requires ChoiceOk(a) && k.counts.Cons?
    decreases a
  {
    match a
    case Only(b) => AfterBranch(k, b)
    case Or(b, rest) => AfterChoice(Barred(k, BranchRe(b)), rest)
  }

  // The operators below the operands of a branch, once these are concatenated.
  function Base(k: Stacks): List<Op> {
    if k.counts.Cons? && k.counts.head > 0 then Cons(Concatenation, k.ops) else k.ops
  }

  // Unwinding concatenates the operands of a branch.
  lemma {:induction false} UnwindBranch(k: Stacks, b: Branch, alternatives: bool)
    requires BranchOk(b) && k.counts.Cons?
    ensures var u := AfterBranch(k, b);
      && Unwind(u.trees, u.ops, alternatives) == Unwind(Cons(BranchRe(b), k.trees), Base(k), alternatives)
      && u.counts == Cons(k.counts.head + Pieces(b), k.counts.tail) && u.begin == k.begin && u.end == k.end
    decreases b
  {
    match b
    case Last(p) =>
    case More(p, rest) => UnwindBranch(Operand(k, PieceRe(p)), rest, alternatives);
  }

  // Before a bar, the branch is complete.
  lemma {:induction false} BarAfterBranch(k: Stacks, b: Branch, rest: Word)
    requires BranchOk(b) && Fresh(k)
    ensures Bar(AfterBranch(k, b), rest) == Next(Barred(k, BranchRe(b)), rest)
  {
    UnwindBranch(k, b, false);
  }

  // Unwinding completes a choice.
  lemma {:induction false} UnwindChoice(k: Stacks, a: Choice)
    requires ChoiceOk(a) && Fresh(k)
    ensures var u := AfterChoice(k, a);
      && Unwind(u.trees, u.ops, true) == Unwind(Cons(ChoiceRe(a), k.trees), k.ops, true)
      && u.counts.Cons? && u.counts.tail == k.counts.tail && u.begin == k.begin && u.end == k.end
    decreases a
  {
    match a
    case Only(b) => UnwindBranch(k, b, true);
    case Or(b, rest) => UnwindChoice(Barred(k, BranchRe(b)), rest);
  }

  lemma {:induction false} ReadsFactor(k: Stacks, f: Factor, tail: Word)
    requires FactorOk(f) && k.counts.Cons?
    ensures Run(k, FactorText(f) + tail) == Run(Operand(k, FactorRe(f)), tail)
    decreases f
  {
    match f
    case Character(x) =>
      if x.Plain? {
        ReadsPlain(k, x.c, tail);
      } else {
        ReadsEscaped(k, x.letter, tail);
      }
    case Dot =>
      var w: Word := ['.' as nat] + tail;
      assert w[0] == '.' as nat && w[1..] == tail;
    case Brackets(b) => ReadsBrackets(k, b, tail);
    case Group(body) => ReadsGroup(k, body, tail);
  }

  lemma {:induction false} ReadsGroup(k: Stacks, a: Choice, tail: Word)
    requires ChoiceOk(a) && k.counts.Cons?
    ensures Run(k, FactorText(Group(a)) + tail) == Run(Operand(k, ChoiceRe(a)), tail)
    decreases Group(a), 0
  {
    var open := k.(ops := Cons(LeftParenthesis, k.ops), counts := Cons(0, k.counts));
    var close: Word := [')' as nat] + tail;
    var inner := ChoiceText(a) + close;
    var w := FactorText(Group(a)) + tail;
    assert w == ['(' as nat] + inner && w[0] == '(' as nat && w[1..] == inner;
    assert Step(k, w) == Next(open, inner);
    ReadsChoice(open, a, close);
    UnwindChoice(open, a);
    assert close[0] == ')' as nat && close[1..] == tail;
    assert Step(AfterChoice(open, a), close) == Close(AfterChoice(open, a), tail) ==
      Next(Operand(k, ChoiceRe(a)), tail);
  }

  lemma {:induction false} ReadsPiece(k: Stacks, p: Piece, tail: Word)
    requires PieceOk(p) && k.counts.Cons?
    ensures Run(k, PieceText(p) + tail) == Run(Operand(k, PieceRe(p)), tail)
    decreases p
  {
    var re, qs := FactorRe(p.factor), p.quantifiers;
    Associate(FactorText(p.factor), QuantifiersText(qs), tail);
    ReadsFactor(k, p.factor, QuantifiersText(qs) + tail);
    ReadsQuantifiers(Operand(k, re), qs, tail);
  }

  lemma {:induction false} ReadsBranch(k: Stacks, b: Branch, tail: Word)
    requires BranchOk(b) && k.counts.Cons?
    ensures Run(k, BranchText(b) + tail) == Run(AfterBranch(k, b), tail)
    decreases b
  {
    match b
    case Last(p) => ReadsPiece(k, p, tail);
    case More(p, rest) =>
      Associate(PieceText(p), BranchText(rest), tail);
      ReadsPiece(k, p, BranchText(rest) + tail);
      ReadsBranch(Operand(k, PieceRe(p)), rest, tail);
  }

  lemma {:induction false} ReadsChoice(k: Stacks, a: Choice, tail: Word)
    requires ChoiceOk(a) && Fresh(k)
    ensures Run(k, ChoiceText(a) + tail) == Run(AfterChoice(k, a), tail)
    decreases a
  {
    match a
    case Only(b) => ReadsBranch(k, b, tail);
    case Or(b, rest) =>
      var t := ChoiceText(rest) + tail;
      var bar: Word := ['|' as nat] + t;
      OrText(b, rest, tail);
      ReadsBranch(k, b, bar);
      BarAfterBranch(k, b, t);
      assert bar[0] == '|' as nat && bar[1..] == t;
      assert Step(AfterBranch(k, b), bar) == Next(Barred(k, BranchRe(b)), t);
      ReadsChoice(Barred(k, BranchRe(b)), rest, tail);
  }

  lemma {:induction false} OrText(b: Branch, rest: Choice, tail: Word)
    ensures ChoiceText(Or(b, rest)) + tail == BranchText(b) + (['|' as nat] + (ChoiceText(rest) + tail))
  {
  }

  // Reading a pattern gives its meaning.
  lemma {:induction false} CompileText(p: Pattern)
    requires ChoiceOk(p.body)
    ensures Compile(Text(p)) == Valid(ChoiceRe(p.body), p.begin, p.end)
  {
    var first := EMPTY.(begin := p.begin);
    var last: Word := if p.end then ['$' as nat] else [];
    var body := ChoiceText(p.body) + last;
    var u := AfterChoice(first, p.body);
    if p.begin {
      assert Text(p)[0] == '^' as nat && Text(p)[1..] == body;
      assert Step(EMPTY, Text(p)) == Next(first, body);
    } else {
      assert Text(p) == body;
    }
    ReadsChoice(first, p.body, last);
    UnwindChoice(first, p.body);
    if p.end {
      assert last[1..] == [];
      assert Step(u, last) == Next(u.(end := true), []);
    }
  }

  // Escapes

  // The characters that may follow a backslash, and what they stand for: fourteen for themselves, and
  // the form feed, line feed, carriage return, tabulator and vertical tabulator.
  const ESCAPES: seq<(nat, nat)> := [
    (0x5E, 0x5E), (0x24, 0x24), (0x7C, 0x7C), (0x28, 0x28), (0x29, 0x29), (0x3F, 0x3F), (0x2A, 0x2A),
    (0x2B, 0x2B), (0x2E, 0x2E), (0x5B, 0x5B), (0x5D, 0x5D), (0x7B, 0x7B), (0x7D, 0x7D), (0x5C, 0x5C),
    (0x66, 0x0C), (0x6E, 0x0A), (0x72, 0x0D), (0x74, 0x09), (0x76, 0x0B)]

  predicate Escapes(e: nat, c: nat) {
    exists k :: 0 <= k < |ESCAPES| && ESCAPES[k] == (e, c)
  }

  lemma EscapesAre(e: CodePoint, c: CodePoint)
    ensures EscapeOf(e) == Some(c) <==> Escapes(e, c)
  {
    if EscapeOf(e) == Some(c) && e in SPECIAL {
      var k :| 0 <= k < |SPECIAL| && SPECIAL[k] == e;
      assert ESCAPES[k] == (e, c);
    } else if EscapeOf(e) == Some(c) {
      var k :=
        if e == 0x66 then 14 else if e == 0x6E then 15 else if e == 0x72 then 16 else if e == 0x74 then 17 else 18;
      assert ESCAPES[k] == (e, c);
    }
    if k :| 0 <= k < |ESCAPES| && ESCAPES[k] == (e, c) {
      if k < 14 {
        assert SPECIAL[k] == e;
      }
    }
  }

  // A backslash and a letter are read as one character, alone or in a class, exactly as the table says;
  // in a class, `b` stands for the backspace.
  lemma {:induction false} EscapesRead(e: CodePoint, c: CodePoint)
    ensures Compile([0x5C, e]) == Valid(One(Literal(c)), false, false) <==> Escapes(e, c)
    ensures Compile([0x5B, 0x5C, e, 0x5D]) == Valid(One(OneOf(Class(false, [Span(c, c)]))), false, false)
       <==> Escapes(e, c) || (e == 0x62 && c == 8)
  {
    EscapesAre(e, c);
    ReadsOneEscape(e);
    ReadsEscapeInClass(e);
  }

  lemma {:induction false} OneFactor(f: Factor)
    requires FactorOk(f)
    ensures Compile(FactorText(f)) == Valid(FactorRe(f), false, false)
  {
    hide FactorOk, FactorText, FactorRe, Compile;
    var piece := Piece(f, []);
    var p := Pattern(false, Only(Last(piece)), false);
    assert PieceOk(piece);
    assert BranchOk(Last(piece));
    CompileText(p);
    assert PieceText(piece) == FactorText(f) + [];
    assert BranchText(Last(piece)) == PieceText(piece);
    assert Text(p) == FactorText(f);
    assert BranchRe(Last(piece)) == PieceRe(piece);
  }

  lemma {:induction false} ReadsOneEscape(e: CodePoint)
    ensures Compile([0x5C, e])
         == if EscapeOf(e).Some? then Valid(One(Literal(EscapeOf(e).value)), false, false) else Invalid
  {
    if EscapeOf(e).Some? {
      OneFactor(Character(Escaped(e)));
    } else {
      var s: Word := [0x5C, e];
      assert s[1..] == [e] && Step(EMPTY, s) == Bad;
    }
  }

  lemma {:induction false} ReadsEscapeInClass(e: CodePoint)
    ensures Compile([0x5B, 0x5C, e, 0x5D]) == (
      if e == 0x62 then Valid(One(OneOf(Class(false, [Span(8, 8)]))), false, false)
      else if EscapeOf(e).Some?
      then Valid(One(OneOf(Class(false, [Span(EscapeOf(e).value, EscapeOf(e).value)]))), false, false)
      else Invalid)
  {
    EscapeNotB();
    if ClassGlyphOk(Escaped(e)) {
      var k := ClassText(false, [Single(Escaped(e))], false);
      OneFactor(Brackets(k));
      assert k.items[1..] == [] && k.items[..0] == [];
      assert ItemsText(k.items) == [0x5C, e] + ItemsText([]);
      assert FactorText(Brackets(k)) == [0x5B, 0x5C, e, 0x5D];
      assert SpansOf(k.items) == SpansOf([]) + [SpanOf(k.items[0])];
      assert ClassOf(k) == Class(false, [Span(CharOf(Escaped(e)), CharOf(Escaped(e)))]);
    } else {
      var s: Word := [0x5B, 0x5C, e, 0x5D];
      assert s[1..][0] == 0x5C && s[1..][1..] == [e, 0x5D];
      assert ParseClass(s[1..]) == BadClass && Step(EMPTY, s) == Bad;
    }
  }
}
