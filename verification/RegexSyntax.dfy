/** How a pattern is read: with stacks of operands, operators and atom counts. */
module RegexSyntax {
  import opened RegexLanguage

  datatype Option<T> = None | Some(value: T)

  datatype List<T> = Nil | Cons(head: T, tail: List<T>)

  datatype Op = ZeroOrOne | ZeroOrMore | OneOrMore | Concatenation | Alternation | LeftParenthesis

  // The operands as the expressions they stand for, the operators, and the number of atoms so far in
  // each open parenthesis, the topmost first; and whether an anchor has been seen.
  datatype Stacks = Stacks(trees: List<Re>, ops: List<Op>, counts: List<nat>, begin: bool, end: bool)

  // Operators

  // An operator applied to the topmost operands.
  function Evaluate(trees: List<Re>, op: Op): Option<List<Re>> {
    match trees
    case Nil => None
    case Cons(b, rest) =>
      match op
      case ZeroOrOne => Some(Cons(Opt(b), rest))
      case ZeroOrMore => Some(Cons(Star(b), rest))
      case OneOrMore => Some(Cons(Plus(b), rest))
      case Concatenation => if rest.Nil? then None else Some(Cons(Cat(rest.head, b), rest.tail))
      case Alternation => if rest.Nil? then None else Some(Cons(Alt(rest.head, b), rest.tail))
      case LeftParenthesis => None
  }

  // Whether an operator on the stack is evaluated before an alternation, or before a parenthesis or
  // the end.
  predicate Binds(op: Op, alternatives: bool) {
    op.Concatenation? || (op.Alternation? && alternatives)
  }

  datatype Unwound = Stuck | Unwound(trees: List<Re>, ops: List<Op>)

  // Evaluates operators from the top of the stack as long as they bind.
  function Unwind(trees: List<Re>, ops: List<Op>, alternatives: bool): Unwound
    decreases ops
  {
    if ops.Nil? || !Binds(ops.head, alternatives) then Unwound(trees, ops)
    else
      match Evaluate(trees, ops.head)
      case None => Stuck
      case Some(more) => Unwind(more, ops.tail, alternatives)
  }

  // Only these operators wait on the stack; every open parenthesis has its count, and so has the
  // whole pattern.
  predicate Balanced(ops: List<Op>, counts: List<nat>)
    decreases ops
  {
    match ops
    case Nil => counts.Cons? && counts.tail.Nil?
    case Cons(op, rest) =>
      counts.Cons? &&
      (if op.LeftParenthesis? then Balanced(rest, counts.tail) else Binds(op, true) && Balanced(rest, counts))
  }

  lemma {:induction false} BalancedAnyCount(ops: List<Op>, n: nat, m: nat, counts: List<nat>)
    requires Balanced(ops, Cons(n, counts))
    ensures Balanced(ops, Cons(m, counts))
    decreases ops
  {
    if ops.Cons? && !ops.head.LeftParenthesis? {
      BalancedAnyCount(ops.tail, n, m, counts);
    }
  }

  // Operators are unwound up to one that does not bind.
  lemma {:induction false} UnwoundIs(trees: List<Re>, ops: List<Op>, alternatives: bool)
    ensures var u := Unwind(trees, ops, alternatives);
      u.Unwound? && u.ops.Cons? ==> !Binds(u.ops.head, alternatives)
    decreases ops
  {
    if ops.Cons? && Binds(ops.head, alternatives) && Evaluate(trees, ops.head).Some? {
      UnwoundIs(Evaluate(trees, ops.head).value, ops.tail, alternatives);
    }
  }

  // An operand has been completed: it is concatenated to the one before it, if there is one.
  function Concatenate(k: Stacks): Stacks {
    match k.counts
    case Nil => k
    case Cons(n, rest) => k.(ops := if n > 0 then Cons(Concatenation, k.ops) else k.ops, counts := Cons(n + 1, rest))
  }

  function Operand(k: Stacks, re: Re): Stacks {
    Concatenate(k.(trees := Cons(re, k.trees)))
  }

  // Characters

  datatype Char = NoChar | Char(c: CodePoint, rest: Word)

  const SPECIAL: seq<CodePoint> := ['^' as nat, '$' as nat, '|' as nat, '(' as nat, ')' as nat, '?' as nat,
    '*' as nat, '+' as nat, '.' as nat, '[' as nat, ']' as nat, '{' as nat, '}' as nat, '\\' as nat]

  // The character after a backslash.
  function EscapeOf(c: CodePoint): Option<CodePoint> {
    if c in SPECIAL then Some(c)
    else if c == 'f' as nat then Some(0x0C)
    else if c == 'n' as nat then Some(0x0A)
    else if c == 'r' as nat then Some(0x0D)
    else if c == 't' as nat then Some(0x09)
    else if c == 'v' as nat then Some(0x0B)
    else None
  }

  function Escape(s: Word): (r: Char)
    ensures r.Char? ==> |r.rest| < |s|
  {
    if s == [] || EscapeOf(s[0]).None? then NoChar else Char(EscapeOf(s[0]).value, s[1..])
  }

  // Character classes

  datatype Classed = BadClass | Classed(k: Class, rest: Word)

  const DASH: CodePoint := '-' as nat

  // What the next character of a class does: `step` is 1 after a character, 2 after a dash that
  // follows one, 0 otherwise.
  function Added(spans: seq<Span>, step: nat, c: CodePoint): (seq<Span>, nat) {
    if step == 1 && c == DASH then (spans, 2)
    else if step == 2 && spans != [] then (spans[..|spans| - 1] + [spans[|spans| - 1].(last := c)], 0)
    else (spans + [Span(c, c)], 1)
  }

  // The rest of a character class.
  function ClassLoop(s: Word, negated: bool, step: nat, spans: seq<Span>): (r: Classed)
    ensures r.Classed? ==> |r.rest| < |s|
    decreases |s|
  {
    if s == [] then BadClass
    else if s[0] == ']' as nat then
      if spans == [] then BadClass
      else Classed(Class(negated, if step == 2 then spans + [Span(DASH, DASH)] else spans), s[1..])
    else if s[0] == '\\' as nat then
      if s[1..] != [] && s[1] == 'b' as nat then
        var (more, next) := Added(spans, step, 8);
        ClassLoop(s[2..], negated, next, more)
      else
        match Escape(s[1..])
        case NoChar => BadClass
        case Char(c, rest) =>
          var (more, next) := Added(spans, step, c);
          ClassLoop(rest, negated, next, more)
    else
      var (more, next) := Added(spans, step, s[0]);
      ClassLoop(s[1..], negated, next, more)
  }

  function ParseClass(s: Word): (r: Classed)
    ensures r.Classed? ==> |r.rest| < |s|
  {
    if s != [] && s[0] == '^' as nat then ClassLoop(s[1..], true, 0, []) else ClassLoop(s, false, 0, [])
  }

  // Counted repetition

  datatype Count = BadCount | Count(n: nat, rest: Word)

  predicate IsDigit(c: CodePoint) {
    '0' as nat <= c <= '9' as nat
  }

  predicate StartsWithDigit(s: Word) {
    s != [] && IsDigit(s[0])
  }

  const INFINITY: nat := 0xFFFF_FFFF

  // More digits after those that denote `r`, in 32 bits.
  function UnsignedFrom(r: nat, s: Word): (c: Count)
    requires r <= INFINITY
    ensures c.Count? ==> |c.rest| <= |s| && c.n <= INFINITY
    decreases |s|
  {
    if !StartsWithDigit(s) then Count(r, s)
    else if r >= 429496729 && s[0] > '5' as nat then BadCount
    else UnsignedFrom((r * 10 + (s[0] - '0' as nat)) % 0x1_0000_0000, s[1..])
  }

  function Unsigned(s: Word): (c: Count)
    ensures c.Count? ==> |c.rest| < |s| && c.n <= INFINITY
  {
    if !StartsWithDigit(s) then BadCount else UnsignedFrom(s[0] - '0' as nat, s[1..])
  }

  datatype Bounds = BadBounds | Bounds(n: nat, m: nat, rest: Word)

  // The bounds of a repetition, up to the brace that closes it.
  function ParseBounds(s: Word): (b: Bounds)
    ensures b.Bounds? ==> b.n <= b.m <= INFINITY && |b.rest| < |s|
  {
    match Unsigned(s)
    case BadCount => BadBounds
    case Count(n, rest) =>
      if rest != [] && rest[0] == ',' as nat then
        var t := rest[1..];
        if t != [] && t[0] == '}' as nat then Bounds(n, INFINITY, t)
        else
          match Unsigned(t)
          case BadCount => BadBounds
          case Count(m, u) => if m < n then BadBounds else Bounds(n, m, u)
      else Bounds(n, n, rest)
  }

  function BoundOf(m: nat): Bound {
    if m == INFINITY then Infinite else Finite(m)
  }

  // A counted repetition of the topmost operand; zero times is not supported.
  function Quantify(trees: List<Re>, n: nat, m: nat): Option<List<Re>>
    requires n <= m <= INFINITY
  {
    if trees.Nil? || m == 0 then None else Some(Cons(Expand(trees.head, n, BoundOf(m)), trees.tail))
  }

  // The pattern

  datatype Stepped = Bad | Next(k: Stacks, rest: Word)

  function Evaluated(k: Stacks, op: Op, rest: Word): Stepped {
    match Evaluate(k.trees, op)
    case None => Bad
    case Some(trees) => Next(k.(trees := trees), rest)
  }

  function Bar(k: Stacks, rest: Word): Stepped {
    match Unwind(k.trees, k.ops, false)
    case Stuck => Bad
    case Unwound(trees, ops) =>
      if k.counts.Nil? then Bad
      else Next(k.(trees := trees, ops := Cons(Alternation, ops), counts := Cons(0, k.counts.tail)), rest)
  }

  function Close(k: Stacks, rest: Word): Stepped {
    match Unwind(k.trees, k.ops, true)
    case Stuck => Bad
    case Unwound(trees, ops) =>
      if ops.Nil? || k.counts.Nil? then Bad
      else Next(Concatenate(k.(trees := trees, ops := ops.tail, counts := k.counts.tail)), rest)
  }

  function Brace(k: Stacks, s: Word): Stepped {
    match ParseBounds(s)
    case BadBounds => Bad
    case Bounds(n, m, rest) =>
      match Quantify(k.trees, n, m)
      case None => Bad
      case Some(trees) =>
        if rest == [] || rest[0] != '}' as nat then Bad else Next(k.(trees := trees), rest[1..])
  }

  // What the next character of the pattern does.
  function Step(k: Stacks, s: Word): (r: Stepped)
    requires s != []
    ensures r.Next? ==> |r.rest| < |s|
  {
    var c, t := s[0], s[1..];
    if c == '^' as nat then Next(k.(begin := true), t)
    else if c == '$' as nat then Next(k.(end := true), t)
    else if c == '|' as nat then Bar(k, t)
    else if c == '(' as nat then Next(k.(ops := Cons(LeftParenthesis, k.ops), counts := Cons(0, k.counts)), t)
    else if c == ')' as nat then Close(k, t)
    else if c == '?' as nat then Evaluated(k, ZeroOrOne, t)
    else if c == '*' as nat then Evaluated(k, ZeroOrMore, t)
    else if c == '+' as nat then Evaluated(k, OneOrMore, t)
    else if c == '{' as nat then Brace(k, t)
    else if c == '.' as nat then Next(Operand(k, One(AnyOne)), t)
    else if c == '[' as nat then
      match ParseClass(t)
      case BadClass => Bad
      case Classed(found, rest) => Next(Operand(k, One(OneOf(found))), rest)
    else if c == '\\' as nat then
      match Escape(t)
      case NoChar => Bad
      case Char(e, rest) => Next(Operand(k, One(Literal(e))), rest)
    else Next(Operand(k, One(Literal(c))), t)
  }

  function Run(k: Stacks, s: Word): Option<Stacks>
    decreases |s|
  {
    if s == [] then Some(k)
    else
      match Step(k, s)
      case Bad => None
      case Next(next, rest) => Run(next, rest)
  }

  const EMPTY: Stacks := Stacks(Nil, Nil, Cons(0, Nil), false, false)

  datatype Parsed = Invalid | Valid(re: Re, begin: bool, end: bool)

  // The whole pattern: it is valid if a single operand is left.
  function Finish(k: Stacks): Parsed {
    match Unwind(k.trees, k.ops, true)
    case Stuck => Invalid
    case Unwound(trees, ops) =>
      if ops.Nil? && trees.Cons? && trees.tail.Nil? then Valid(trees.head, k.begin, k.end) else Invalid
  }

  function Compile(s: Word): Parsed {
    match Run(EMPTY, s)
    case None => Invalid
    case Some(k) => Finish(k)
  }
}
