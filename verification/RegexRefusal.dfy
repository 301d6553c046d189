/** Patterns that are not read: unbalanced groups, operators without operands, classes without an end,
    and counts that say nothing. */
module RegexRefusal {
  import opened RegexLanguage
  import opened RegexSyntax
  import opened RegexPattern

  lemma {:induction false} Refused(k: Stacks, s: Word)
    requires s != [] && Step(k, s) == Bad
    ensures Run(k, s) == None
  {
  }

  // What a choice from the beginning leaves on the stacks.
  lemma {:induction false} ReadsFirst(a: Choice, tail: Word)
    requires ChoiceOk(a)
    ensures var u := AfterChoice(EMPTY, a);
      && Run(EMPTY, ChoiceText(a) + tail) == Run(u, tail)
      && Unwind(u.trees, u.ops, true) == Unwound(Cons(ChoiceRe(a), Nil), Nil) && u.counts.Cons?
  {
    ReadsChoice(EMPTY, a, tail);
    UnwindChoice(EMPTY, a);
  }

  // A group that is closed but was not opened.
  lemma {:induction false} UnopenedRefused(a: Choice, rest: Word)
    requires ChoiceOk(a)
    ensures Compile(ChoiceText(a) + ([')' as nat] + rest)) == Invalid
  {
    var close: Word := [')' as nat] + rest;
    ReadsFirst(a, close);
    assert close[1..] == rest;
    Refused(AfterChoice(EMPTY, a), close);
  }

  // A group that is opened but not closed.
  lemma {:induction false} UnclosedRefused(a: Choice)
    requires ChoiceOk(a)
    ensures Compile(['(' as nat] + ChoiceText(a)) == Invalid
  {
    var open := EMPTY.(ops := Cons(LeftParenthesis, Nil), counts := Cons(0, EMPTY.counts));
    var s: Word := ['(' as nat] + ChoiceText(a);
    assert s[1..] == ChoiceText(a) && ChoiceText(a) + [] == ChoiceText(a);
    assert Step(EMPTY, s) == Next(open, s[1..]);
    ReadsChoice(open, a, []);
    UnwindChoice(open, a);
  }

  // No pattern, nothing in a group, an alternative without its first or its second half.
  lemma {:induction false} NothingRefused(a: Choice)
    requires ChoiceOk(a)
    ensures Compile([]) == Invalid && Compile(['(' as nat, ')' as nat]) == Invalid
    ensures Compile(['|' as nat] + ChoiceText(a)) == Invalid && Compile(ChoiceText(a) + ['|' as nat]) == Invalid
  {
    GroupOfNothing();
    FirstHalfMissing(a);
    SecondHalfMissing(a);
  }

  lemma {:induction false} GroupOfNothing()
    ensures Compile(['(' as nat, ')' as nat]) == Invalid
  {
    var s: Word, t: Word := ['(' as nat, ')' as nat], [')' as nat];
    var open := EMPTY.(ops := Cons(LeftParenthesis, Nil), counts := Cons(0, EMPTY.counts));
    assert s[1..] == t && t[1..] == [];
    assert Step(EMPTY, s) == Next(open, t);
    assert Step(open, t) == Next(Concatenate(EMPTY), []);
    assert Run(open, t) == Run(Concatenate(EMPTY), []);
  }

  lemma {:induction false} FirstHalfMissing(a: Choice)
    requires ChoiceOk(a)
    ensures Compile(['|' as nat] + ChoiceText(a)) == Invalid
  {
    var s: Word := ['|' as nat] + ChoiceText(a);
    var barred := EMPTY.(ops := Cons(Alternation, Nil));
    assert s[1..] == ChoiceText(a) && ChoiceText(a) + [] == ChoiceText(a);
    assert Step(EMPTY, s) == Next(barred, s[1..]);
    ReadsChoice(barred, a, []);
    UnwindChoice(barred, a);
  }

  lemma {:induction false} SecondHalfMissing(a: Choice)
    requires ChoiceOk(a)
    ensures Compile(ChoiceText(a) + ['|' as nat]) == Invalid
  {
    var bar: Word := ['|' as nat];
    ReadsFirst(a, bar);
    var u := AfterChoice(EMPTY, a);
    BarUnwinds(u);
    assert bar[1..] == [];
    if Bar(u, []).Next? {
      assert Step(u, bar) == Bar(u, []);
      assert Run(u, bar) == Run(Bar(u, []).k, []);
    } else {
      Refused(u, bar);
    }
  }

  // Unwinding in two steps is unwinding in one.
  lemma {:induction false} UnwindTwice(trees: List<Re>, ops: List<Op>)
    ensures var u := Unwind(trees, ops, false);
      if u.Stuck? then Unwind(trees, ops, true) == Stuck
      else Unwind(trees, ops, true) == Unwind(u.trees, u.ops, true)
    decreases ops
  {
    if ops.Cons? && Binds(ops.head, false) && Evaluate(trees, ops.head).Some? {
      UnwindTwice(Evaluate(trees, ops.head).value, ops.tail);
    }
  }

  // Each alternation takes one operand away, so an operand is missing for one more.
  lemma {:induction false} OneShort(trees: List<Re>, ops: List<Op>, re: Re)
    requires Unwind(trees, ops, true) == Unwound(Cons(re, Nil), Nil)
    ensures Height(trees) == 1 + OpCount(ops)
    decreases ops
  {
    if ops.Cons? {
      OneShort(Evaluate(trees, ops.head).value, ops.tail, re);
    }
  }

  lemma {:induction false} ManyLeft(trees: List<Re>, ops: List<Op>)
    requires Unwind(trees, ops, true).Unwound? && Unwind(trees, ops, true).ops.Nil?
    ensures Height(trees) == OpCount(ops) + Height(Unwind(trees, ops, true).trees)
    decreases ops
  {
    if ops.Cons? {
      ManyLeft(Evaluate(trees, ops.head).value, ops.tail);
    }
  }

  function Height<T>(l: List<T>): nat {
    if l.Nil? then 0 else 1 + Height(l.tail)
  }

  function OpCount(ops: List<Op>): nat {
    Height(ops)
  }

  lemma {:induction false} BarUnwinds(u: Stacks)
    requires exists re :: Unwind(u.trees, u.ops, true) == Unwound(Cons(re, Nil), Nil)
    ensures Bar(u, []).Next? ==> Finish(Bar(u, []).k) == Invalid
  {
    var re :| Unwind(u.trees, u.ops, true) == Unwound(Cons(re, Nil), Nil);
    UnwindTwice(u.trees, u.ops);
    if Bar(u, []).Next? {
      var v := Unwind(u.trees, u.ops, false);
      OneShort(v.trees, v.ops, re);
      var ops := Cons(Alternation, v.ops);
      if Unwind(v.trees, ops, true).Unwound? && Unwind(v.trees, ops, true).ops.Nil? {
        ManyLeft(v.trees, ops);
      }
    }
  }

  // An operator at the beginning has nothing to repeat.
  lemma {:induction false} NothingToRepeat(q: CodePoint, rest: Word)
    requires q == '?' as nat || q == '*' as nat || q == '+' as nat || q == '{' as nat
    ensures Compile([q] + rest) == Invalid
  {
    var s: Word := [q] + rest;
    assert s[0] == q;
    Refused(EMPTY, s);
  }

  // Classes

  // A class in which nothing stands, and one without its end.
  lemma {:induction false} ClassRefused(negated: bool, items: seq<Item>, rest: Word)
    requires forall i :: i in items ==> ItemOk(i)
    ensures var open: Word := ['[' as nat] + (if negated then ['^' as nat] else []);
      Compile(open + ([']' as nat] + rest)) == Invalid && Compile(open + ItemsText(items)) == Invalid
  {
    EmptyClass(negated, rest);
    UnclosedClass(negated, items);
  }

  lemma {:induction false} EmptyClass(negated: bool, rest: Word)
    ensures Compile(['[' as nat] + (if negated then ['^' as nat] else []) + ([']' as nat] + rest)) == Invalid
  {
    var end: Word := [']' as nat] + rest;
    var s: Word := ['[' as nat] + (if negated then ['^' as nat] else []) + end;
    assert s[0] == '[' as nat;
    if negated {
      assert s[1..] == ['^' as nat] + end && s[1..][1..] == end;
    } else {
      assert s[1..] == end;
    }
    assert ClassLoop(end, negated, 0, []) == BadClass;
    Refused(EMPTY, s);
  }

  lemma {:induction false} ItemsEnd(items: seq<Item>, negated: bool, step: nat, spans: seq<Span>)
    requires (forall i :: i in items ==> ItemOk(i)) && step <= 1
    ensures ClassLoop(ItemsText(items), negated, step, spans) == BadClass
    decreases |items|
  {
    if items != [] {
      ReadsItem(items[0], ItemsText(items[1..]), negated, step, spans);
      ItemsEnd(items[1..], negated, if items[0].Single? then 1 else 0, spans + [SpanOf(items[0])]);
    }
  }

  lemma {:induction false} UnclosedClass(negated: bool, items: seq<Item>)
    requires forall i :: i in items ==> ItemOk(i)
    ensures Compile(['[' as nat] + (if negated then ['^' as nat] else []) + ItemsText(items)) == Invalid
  {
    hide ClassLoop, ItemOk, ItemsText;
    var body := ItemsText(items);
    var s: Word := ['[' as nat] + (if negated then ['^' as nat] else []) + body;
    assert s[0] == '[' as nat;
    ItemsEnd(items, negated, 0, []);
    if negated {
      assert s[1..] == ['^' as nat] + body && s[1..][1..] == body;
    } else {
      assert s[1..] == body;
      NoCaret(items);
    }
    Refused(EMPTY, s);
  }

  lemma NoCaret(items: seq<Item>)
    requires forall i :: i in items ==> ItemOk(i)
    ensures ItemsText(items) != [] ==> ItemsText(items)[0] != '^' as nat
  {
    if items != [] {
      assert items[0] in items;
    }
  }

  // Counts

  // After one operand, a brace and what follows it.
  function Braced(f: Factor, t: Word): Word {
    FactorText(f) + (['{' as nat] + t)
  }

  lemma {:induction false} BraceRefused(f: Factor, t: Word)
    requires FactorOk(f) && Brace(Operand(EMPTY, FactorRe(f)), t) == Bad
    ensures Compile(Braced(f, t)) == Invalid
  {
    var brace: Word := ['{' as nat] + t;
    ReadsFactor(EMPTY, f, brace);
    assert brace[0] == '{' as nat && brace[1..] == t;
    Refused(Operand(EMPTY, FactorRe(f)), brace);
  }

  // Zero times.
  lemma {:induction false} ZeroTimesRefused(f: Factor, rest: Word)
    requires FactorOk(f)
    ensures Compile(Braced(f, Numeral(0) + (['}' as nat] + rest))) == Invalid
  {
    ReadsNumber(0, ['}' as nat] + rest);
    BraceRefused(f, Numeral(0) + (['}' as nat] + rest));
  }

  // Fewer times at most than at least.
  lemma {:induction false} ReversedRefused(f: Factor, n: nat, m: nat, rest: Word)
    requires FactorOk(f) && m < n < INFINITY
    ensures Compile(Braced(f, Numeral(n) + ([',' as nat] + (Numeral(m) + (['}' as nat] + rest))))) == Invalid
  {
    var close: Word := ['}' as nat] + rest;
    var comma: Word := [',' as nat] + (Numeral(m) + close);
    ReadsNumber(n, comma);
    ReadsNumber(m, close);
    assert comma[0] == ',' as nat && comma[1..] == Numeral(m) + close;
    BraceRefused(f, Numeral(n) + comma);
  }

  // A brace without a number, and one that is not closed.
  lemma {:induction false} UnclosedBraceRefused(f: Factor, n: nat, rest: Word)
    requires FactorOk(f) && n < INFINITY && !StartsWithDigit(rest)
    requires rest == [] || (rest[0] != ',' as nat && rest[0] != '}' as nat)
    ensures Compile(Braced(f, rest)) == Invalid && Compile(Braced(f, Numeral(n) + rest)) == Invalid
  {
    BraceRefused(f, rest);
    ReadsNumber(n, rest);
    BraceRefused(f, Numeral(n) + rest);
  }
}
