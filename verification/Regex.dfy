/** The regular expression object: it compiles its pattern into states when it is made, and runs
    them on texts. */
module Regex {
  import opened RegexLanguage
  import opened RegexSyntax
  import opened RegexNfa
  import opened RegexBuild
  import opened RegexSearch
  import RegexPattern

  function Min(a: int, b: int): int {
    if a < b then a else b
  }

  class Machine {
    var states: seq<State>
    var ranges: seq<Range>
    var root: int
    var anchorBegin: bool
    var anchorEnd: bool

    // The stacks of the compiler, and the expressions that its operands stand for.
    var operands: List<Frag>
    var ops: List<Op>
    var counts: List<nat>
    ghost var trees: List<Re>

    // What the pattern means, if it is valid.
    ghost var meaning: Re

    // The pattern, and how much of it has been taken.
    const source: Word
    var pos: nat

    // For searching: which states have been added to the next list, and two lists of states.
    var stateSet: array<bool>
    var state0: array<int>
    var state1: array<int>

    constructor (pattern: Word)
      ensures Valid() && fresh(stateSet) && fresh(state0) && fresh(state1)
      ensures IsValid() == Compile(pattern).Valid?
      ensures IsValid() ==> Compile(pattern) == RegexSyntax.Valid(meaning, anchorBegin, anchorEnd)
    {
      states, ranges, root, anchorBegin, anchorEnd := [], [], INVALID, false, false;
      operands, ops, counts, trees, meaning := Nil, Nil, Cons(0, Nil), Nil, One(AnyOne);
      source, pos := pattern, 0;
      stateSet, state0, state1 := new bool[0], new int[0], new int[0];
      new;
      Parse();
      stateSet, state0, state1 := new bool[|states|], new int[|states|], new int[|states|];
    }

    predicate IsValid()
      reads `root
    {
      root != INVALID
    }

    // A valid pattern has been compiled into its meaning, and there is room to search.
    ghost predicate Valid()
      reads `states, `ranges, `root, `stateSet, `state0, `state1, `meaning
    {
      && (IsValid() ==> Runs(meaning))
      && state0 != state1 && state0.Length == state1.Length == stateSet.Length == |states|
    }

    function Automaton(): Nfa
      reads `states, `ranges
    {
      Nfa(states, ranges)
    }

    // The operands lie in the states.
    ghost predicate Stacked()
      reads `states, `ranges, `operands, `trees
    {
      Laid(Automaton(), trees, operands, |states|)
    }

    // States

    method NewState(out: int, out1: int, codepoint: nat) returns (s: int)
      modifies `states
      ensures s == |old(states)| && states == old(states) + [State(out, out1, INVALID, codepoint)]
    {
      s := |states|;
      states := states + [State(out, out1, INVALID, codepoint)];
    }

    // Every state of the list `l` is made to lead to `s`.
    method Patch(l: int, s: int, ghost e: seq<nat>)
      requires Linked(states, e) && Rising(e) && l == e[0]
      modifies `states
      ensures |states| == |old(states)| && forall i :: 0 <= i < |states| ==> PatchedState(old(states), states, e, s, i)
    {
      hide PatchedState;
      var at := l;
      ghost var k := 0;
      PatchedNone(states, e, s);
      while at != INVALID
        invariant 0 <= k <= |e| && at == (if k < |e| then e[k] else INVALID)
        invariant PatchedUpTo(old(states), states, e, k, s)
        decreases |e| - k
      {
        PatchStep(old(states), states, states[at := states[at].(out := s)], e, k, s);
        var next := states[at].out;
        states := states[at := states[at].(out := s)];
        at := next;
        k := k + 1;
      }
      PatchedAll(old(states), states, e, s);
    }

    // The last state of the list `l1` is made to lead to `l2`.
    method Append(l1: int, l2: int, ghost e: seq<nat>) returns (first: int)
      requires Linked(states, e) && l1 == e[0]
      modifies `states
      ensures first == l1 && |states| == |old(states)|
      ensures forall i :: 0 <= i < |states| ==> ExtendedState(old(states), states, LastOf(e), l2, i)
    {
      first := l1;
      var l := l1;
      ghost var k := 0;
      while states[l].out != INVALID
        invariant 0 <= k < |e| && l == e[k] && states == old(states)
        decreases |e| - k
      {
        l := states[l].out;
        k := k + 1;
      }
      states := states[l := states[l].(out := l2)];
    }

    // Operators

    method EvalConcatenation()
      requires Stacked() && trees.Cons? && trees.tail.Cons?
      modifies `states, `operands, `trees
      ensures Stacked() && trees == Cons(Cat(old(trees).tail.head, old(trees).head), old(trees).tail.tail)
    {
      hide Laid, OpenAt, Built, Ends, Start, Linked, PatchedState, ExtendedState, ExtendedAt;
      ghost var m, r, l := Automaton(), trees.head, trees.tail.head;
      ghost var rest, lo := trees.tail.tail, |states| - Size(r) - Size(l);
      LaidTop(m, trees, operands, |states|);
      LaidTop(m, trees.tail, operands.tail, |states| - Size(r));
      var e2, e1, below := operands.head, operands.tail.head, operands.tail.tail;
      OpenFacts(m, l, lo, e1);
      Patch(e1.out, e2.start, Ends(l, lo));
      assert PatchedAt(m, Automaton(), l, lo, e2.start);
      OpenFacts(m, r, lo + Size(l), e2);
      assert |states| == lo + Size(Cat(l, r)) && Min(e1.minIndex, e2.minIndex) == lo;
      LaidConcatenated(m, Automaton(), l, r, rest, e1, e2, below, lo);
      operands := Cons(Frag(e1.start, e2.out, Min(e1.minIndex, e2.minIndex)), below);
      trees := Cons(Cat(l, r), rest);
    }

    method EvalAlternation()
      requires Stacked() && trees.Cons? && trees.tail.Cons?
      modifies `states, `operands, `trees
      ensures Stacked() && trees == Cons(Alt(old(trees).tail.head, old(trees).head), old(trees).tail.tail)
    {
      hide Laid, OpenAt, Built, Ends, Start, Linked, PatchedState, ExtendedState, ExtendedAt;
      ghost var m, r, l := Automaton(), trees.head, trees.tail.head;
      ghost var rest, lo := trees.tail.tail, |states| - Size(r) - Size(l);
      LaidTop(m, trees, operands, |states|);
      LaidTop(m, trees.tail, operands.tail, |states| - Size(r));
      var e2, e1, below := operands.head, operands.tail.head, operands.tail.tail;
      OpenFacts(m, l, lo, e1);
      OpenFacts(m, r, lo + Size(l), e2);
      assert Min(e1.minIndex, e2.minIndex) == lo;
      var s := NewState(e1.start, e2.start, 0);
      ghost var added := State(e1.start, e2.start, INVALID, 0);
      LinkedAfterPush(m.states, added, Ends(l, lo));
      var out := Append(e1.out, e2.out, Ends(l, lo));
      ExtendedAfterPush(m, Automaton(), added, l, lo, e2.out);
      LaidAlternated(m, Automaton(), l, r, rest, e1, e2, below, lo);
      operands := Cons(Frag(s, out, Min(e1.minIndex, e2.minIndex)), below);
      trees := Cons(Alt(l, r), rest);
    }

    method EvalZeroOrOne()
      requires Stacked() && trees.Cons?
      modifies `states, `operands, `trees
      ensures Stacked() && trees == Cons(Opt(old(trees).head), old(trees).tail)
    {
      hide Laid, OpenAt, Built, Ends, Start, Linked, PatchedState, ExtendedState, ExtendedAt;
      ghost var m, b, rest := Automaton(), trees.head, trees.tail;
      ghost var lo := |states| - Size(b);
      LaidTop(m, trees, operands, |states|);
      var e, below := operands.head, operands.tail;
      OpenFacts(m, b, lo, e);
      var s := NewState(INVALID, e.start, 0);
      ghost var added := State(INVALID, e.start, INVALID, 0);
      LinkedAfterPush(m.states, added, Ends(b, lo));
      var out := Append(e.out, s, Ends(b, lo));
      ExtendedAfterPush(m, Automaton(), added, b, lo, s);
      LaidOptioned(m, Automaton(), b, rest, e, below, lo);
      operands := Cons(Frag(s, out, e.minIndex), below);
      trees := Cons(Opt(b), rest);
    }

    method EvalZeroOrMore()
      requires Stacked() && trees.Cons?
      modifies `states, `operands, `trees
      ensures Stacked() && trees == Cons(Star(old(trees).head), old(trees).tail)
    {
      hide Laid, OpenAt, Built, Ends, Start, Linked, PatchedState, ExtendedState, ExtendedAt;
      ghost var m, b, rest := Automaton(), trees.head, trees.tail;
      ghost var lo := |states| - Size(b);
      LaidTop(m, trees, operands, |states|);
      var e, below := operands.head, operands.tail;
      OpenFacts(m, b, lo, e);
      var s := NewState(INVALID, e.start, 0);
      ghost var added := State(INVALID, e.start, INVALID, 0);
      LinkedAfterPush(m.states, added, Ends(b, lo));
      Patch(e.out, s, Ends(b, lo));
      PatchedAfterPush(m, Automaton(), added, b, lo, s);
      LaidStar(m, Automaton(), b, rest, e, below, lo);
      operands := Cons(Frag(s, s, e.minIndex), below);
      trees := Cons(Star(b), rest);
    }

    method EvalOneOrMore()
      requires Stacked() && trees.Cons?
      modifies `states, `operands, `trees
      ensures Stacked() && trees == Cons(Plus(old(trees).head), old(trees).tail)
    {
      hide Laid, OpenAt, Built, Ends, Start, Linked, PatchedState, ExtendedState, ExtendedAt;
      ghost var m, b, rest := Automaton(), trees.head, trees.tail;
      ghost var lo := |states| - Size(b);
      LaidTop(m, trees, operands, |states|);
      var e, below := operands.head, operands.tail;
      OpenFacts(m, b, lo, e);
      var s := NewState(INVALID, e.start, 0);
      ghost var added := State(INVALID, e.start, INVALID, 0);
      LinkedAfterPush(m.states, added, Ends(b, lo));
      Patch(e.out, s, Ends(b, lo));
      PatchedAfterPush(m, Automaton(), added, b, lo, s);
      LaidPlus(m, Automaton(), b, rest, e, below, lo);
      operands := Cons(Frag(e.start, s, e.minIndex), below);
      trees := Cons(Plus(b), rest);
    }

    // An operator applied to the topmost operands, if they are there.
    method Eval(op: Op) returns (ok: bool)
      requires Stacked()
      modifies `states, `operands, `trees
      ensures Stacked() && ok == Evaluate(old(trees), op).Some?
      ensures trees == if ok then Evaluate(old(trees), op).value else old(trees)
    {
      hide Laid;
      SameHeight(Automaton(), trees, operands, |states|);
      ok := operands.Cons?;
      if !ok {
        return;
      }
      match op
      case ZeroOrOne => EvalZeroOrOne();
      case ZeroOrMore => EvalZeroOrMore();
      case OneOrMore => EvalOneOrMore();
      case Concatenation =>
        ok := operands.tail.Cons?;
        if ok {
          EvalConcatenation();
        }
      case Alternation =>
        ok := operands.tail.Cons?;
        if ok {
          EvalAlternation();
        }
      case LeftParenthesis => ok := false;
    }

    // The states of the topmost operand once more, with their references moved along.
    method CloneStates(minIndex: int, count: nat)
      requires 0 <= minIndex && |states| == minIndex + count
      modifies `states
      ensures |states| == |old(states)| + count
      ensures Same(old(Automaton()), Automaton(), 0, |old(states)|)
      ensures ClonedAt(old(Automaton()), Automaton(), minIndex, |old(states)|, count)
    {
      ghost var m := Automaton();
      var base := |states|;
      states := states + states[minIndex..];
      var j := 0;
      while j < count
        invariant 0 <= j <= count && |states| == base + count
        invariant forall i :: 0 <= i < base ==> states[i] == m.states[i]
        invariant forall i :: base <= i < base + count ==>
                    states[i] == if i < base + j then Relocated(m.states[i - count], count) else m.states[i - count]
      {
        var s := states[base + j];
        if s.out != INVALID {
          s := s.(out := s.out + count);
        }
        if s.out1 != INVALID {
          s := s.(out1 := s.out1 + count);
        }
        states := states[base + j := s];
        j := j + 1;
      }
      forall i | 0 <= i < base ensures SameState(m, Automaton(), i) {
      }
      forall i | minIndex <= i < base ensures ClonedState(m.states, states, count, i) {
        assert states[i + count] == Relocated(m.states[i], count);
      }
    }

    method CloneTopOperand()
      requires Stacked() && trees.Cons?
      modifies `states, `operands, `trees
      ensures Stacked() && trees == Cons(old(trees).head, old(trees))
    {
      hide Laid, OpenAt, Built, Ends, Start, Linked, ClonedAt, Same;
      ghost var m, b, rest := Automaton(), trees.head, trees.tail;
      ghost var lo := |states| - Size(b);
      LaidTop(m, trees, operands, |states|);
      var src, below := operands.head, operands.tail;
      OpenFacts(m, b, lo, src);
      var count := |states| - src.minIndex;
      CloneStates(src.minIndex, count);
      LaidCloned(m, Automaton(), b, rest, src, below, lo);
      operands := Cons(Frag(src.start + count, src.out + count, src.minIndex + count), operands);
      trees := Cons(b, trees);
    }

    method CloneTimes(k: nat)
      requires Stacked() && trees.Cons?
      modifies `states, `operands, `trees
      ensures Stacked() && trees == Cons(old(trees).head, Piled(old(trees).head, k, old(trees).tail))
    {
      var i := 0;
      while i < k
        invariant 0 <= i <= k && Stacked() && trees == Cons(old(trees).head, Piled(old(trees).head, i, old(trees).tail))
      {
        CloneTopOperand();
        i := i + 1;
      }
    }

    method ConcatenateTimes(k: nat)
      requires Stacked() && Height(trees) > k
      modifies `states, `operands, `trees
      ensures Stacked() && trees == Folded(old(trees), k)
    {
      var i := 0;
      while i < k
        invariant 0 <= i <= k && Stacked() && Height(trees) > k - i && Folded(trees, k - i) == Folded(old(trees), k)
      {
        EvalConcatenation();
        i := i + 1;
      }
    }

    // A counted repetition of the topmost operand, from `n` to `m` times, without bound if `m` is
    // INFINITY.
    method EvalQuantifier(n: nat, m: nat) returns (ok: bool)
      requires Stacked() && n <= m <= INFINITY
      modifies `states, `operands, `trees
      ensures Stacked() && ok == Quantify(old(trees), n, m).Some?
      ensures ok ==> trees == Quantify(old(trees), n, m).value
    {
      SameHeight(Automaton(), trees, operands, |states|);
      ok := operands.Cons? && m > 0;
      if !ok {
        return;
      }
      if n == 0 {
        EvalUpTo(m);
      } else {
        EvalFrom(n, m);
      }
    }

    // a{0,} is a*, and a{0,5} is a?a?a?a?a?.
    method EvalUpTo(m: nat)
      requires Stacked() && trees.Cons? && 0 < m <= INFINITY
      modifies `states, `operands, `trees
      ensures Stacked() && trees == Cons(Expand(old(trees).head, 0, BoundOf(m)), old(trees).tail)
    {
      hide Laid;
      if m == INFINITY {
        EvalZeroOrMore();
      } else {
        EvalZeroOrOne();
        CloneTimes(m - 1);
        ghost var z := Opt(old(trees).head);
        FoldedPile(z, z, m - 1, old(trees).tail, 0, 0);
        ConcatenateTimes(m - 1);
      }
    }

    // a{3} is aaa, a{3,} is aaa+, and a{3,5} is aaaa?a?.
    method EvalFrom(n: nat, m: nat)
      requires Stacked() && trees.Cons? && 0 < n <= m <= INFINITY
      modifies `states, `operands, `trees
      ensures Stacked() && trees == Cons(Expand(old(trees).head, n, BoundOf(m)), old(trees).tail)
    {
      hide Laid;
      ghost var a, rest := trees.head, trees.tail;
      CloneTimes(n - 1);
      if m == INFINITY {
        EvalOneOrMore();
        FoldedPile(Plus(a), a, n - 1, rest, 0, 0);
      } else if m > n {
        CloneTopOperand();
        EvalZeroOrOne();
        CloneTimes(m - 1 - n);
        FoldedPile(Opt(a), Opt(a), m - 1 - n, Piled(a, n, rest), 1, 0);
        ConcatenateTimes(m - n);
        ghost var z := Repeat(Opt(a), m - n - 1, Opt(a));
        assert trees == Folded(Cons(z, Piled(a, n, rest)), 1) == Cons(Repeat(a, 1, z), Piled(a, n - 1, rest));
        FoldedPile(z, a, n - 1, rest, 0, 1);
      } else {
        FoldedPile(a, a, n - 1, rest, 0, 0);
      }
      ConcatenateTimes(n - 1);
    }

    // Operands

    method ImplicitConcatenation()
      requires Balanced(ops, counts)
      modifies `ops, `counts
      ensures Balanced(ops, counts) && old(counts).Cons?
      ensures ops == if old(counts).head > 0 then Cons(Concatenation, old(ops)) else old(ops)
      ensures counts == Cons(old(counts).head + 1, old(counts).tail)
    {
      BalancedAnyCount(ops, counts.head, counts.head + 1, counts.tail);
      if counts.head > 0 {
        ops := Cons(Concatenation, ops);
      }
      counts := Cons(counts.head + 1, counts.tail);
    }

    method PushOperand(codepoint: nat, rangeStart: int, ghost a: Atom)
      requires Stacked()
      requires match a
        case Literal(c) => codepoint == c
        case AnyOne => codepoint == ANY_CHARACTER
        case OneOf(k) => codepoint == RANGE_CHARACTER && ClassAt(ranges, rangeStart, k)
      modifies `states, `operands, `trees
      ensures Stacked() && trees == Cons(One(a), old(trees))
    {
      ghost var m := Automaton();
      var s := NewState(INVALID, INVALID, codepoint);
      states := states[s := states[s].(rangeStart := rangeStart)];
      forall i | 0 <= i < |m.states| ensures SameState(m, Automaton(), i) {
      }
      LaidPushed(m, Automaton(), a, trees, operands);
      operands := Cons(Frag(s, s, s), operands);
      trees := Cons(One(a), trees);
    }

    // Characters

    predicate InText()
      reads `pos
    {
      pos <= |source|
    }

    function Rest(): Word
      requires InText()
      reads `pos
    {
      source[pos..]
    }

    function Peek(): nat
      requires InText()
      reads `pos
    {
      if pos < |source| then source[pos] else 0
    }

    // The next character, or zero at the end.
    method Take() returns (c: nat)
      requires InText()
      modifies `pos
      ensures InText() && c == old(Peek())
      ensures Rest() == if old(Rest()) == [] then [] else old(Rest())[1..]
    {
      c := Peek();
      if c != 0 {
        pos := pos + 1;
      }
    }

    method CharacterEscape() returns (ok: bool, c: nat)
      requires InText()
      modifies `pos
      ensures InText() && ok == Escape(old(Rest())).Char?
      ensures ok ==> c == Escape(old(Rest())).c && Rest() == Escape(old(Rest())).rest
    {
      ok, c := false, 0;
      var e := Take();
      if e != 0 && EscapeOf(e).Some? {
        ok, c := true, EscapeOf(e).value;
      }
    }

    method ParseUnsigned() returns (ok: bool, u: nat)
      requires InText()
      modifies `pos
      ensures InText() && ok == Unsigned(old(Rest())).Count?
      ensures ok ==> u == Unsigned(old(Rest())).n && Rest() == Unsigned(old(Rest())).rest
    {
      ok, u := false, 0;
      if Peek() == 0 || !IsDigit(Peek()) {
        return;
      }
      ghost var s := Rest();
      while Peek() != 0 && IsDigit(Peek())
        invariant InText() && u <= INFINITY && UnsignedFrom(u, Rest()) == Unsigned(s)
        decreases |source| - pos
      {
        if u >= 429496729 && Peek() > '5' as nat {
          return;
        }
        var c := Take();
        u := (u * 10 + (c - '0' as nat)) % 0x1_0000_0000;
      }
      ok := true;
    }

    // Character classes

    method NewRange(c: CodePoint) returns (r: int)
      modifies `ranges
      ensures r == |old(ranges)| && ranges == old(ranges) + [Range(c, c, INVALID)]
    {
      r := |ranges|;
      ranges := ranges + [Range(c, c, INVALID)];
    }

    // A new range at the end of the class whose last range is `current`.
    method LinkRange(current: int, c: CodePoint, ghost before: seq<Range>, ghost spans: seq<Span>) returns (r: int)
      requires ranges == before + Chain(|before|, spans)
      requires current == if spans == [] then INVALID else |before| + |spans| - 1
      modifies `ranges
      ensures r == |before| + |spans| && ranges == before + Chain(|before|, spans + [Span(c, c)])
    {
      ChainMore(|before|, spans, Span(c, c));
      r := NewRange(c);
      if current != INVALID {
        ranges := ranges[current := ranges[current].(next := r)];
      }
    }

    // One more character of a class.
    method AddToClass(c: CodePoint, step0: nat, start0: int, current0: int, ghost before: seq<Range>,
        ghost spans: seq<Span>)
      returns (step: nat, start: int, current: int)
      requires ranges == before + Chain(|before|, spans) && step0 <= 2 && (step0 > 0 ==> spans != [])
      requires start0 == if spans == [] then INVALID else |before|
      requires current0 == if spans == [] then INVALID else |before| + |spans| - 1
      modifies `ranges
      ensures var (more, next) := Added(spans, step0, c);
        && step == next && ranges == before + Chain(|before|, more)
        && start == |before| && current == |before| + |more| - 1 && more != []
    {
      step, start, current := step0, start0, current0;
      if step == 1 && c == DASH {
        step := 2;
      } else if step <= 1 {
        var r := LinkRange(current, c, before, spans);
        if start == INVALID {
          start := r;
        }
        current, step := r, 1;
      } else {
        ChainLast(|before|, spans, c);
        ranges := ranges[current := ranges[current].(end := c)];
        step := 0;
      }
    }

    // The end of a class.
    method FinishClass(negate: bool, step: nat, start: int, current: int, ghost before: seq<Range>,
        ghost spans: seq<Span>)
      requires ranges == before + Chain(|before|, spans) && spans != []
      requires start == |before| && current == |before| + |spans| - 1
      modifies `ranges
      ensures before <= ranges && (Forward(before) ==> Forward(ranges))
      ensures ClassAt(ranges, start, Class(negate, if step == 2 then spans + [Span(DASH, DASH)] else spans))
    {
      ghost var all := spans;
      if step == 2 {
        var r := LinkRange(current, DASH, before, spans);
        all := spans + [Span(DASH, DASH)];
      }
      if negate {
        ranges := ranges[start := ranges[start].(start := ranges[start].start + NEGATION)];
      }
      ChainIsClass(before, Class(negate, all), ranges);
    }

    method ParseRange() returns (ok: bool, range: int, ghost k: Class)
      requires InText()
      modifies `pos, `ranges
      ensures InText() && old(ranges) <= ranges && ok == ParseClass(old(Rest())).Classed?
      ensures ok && Forward(old(ranges)) ==> Forward(ranges)
      ensures ok ==> k == ParseClass(old(Rest())).k && Rest() == ParseClass(old(Rest())).rest
      ensures ok ==> ClassAt(ranges, range, k)
    {
      hide Forward, ClassAt, Chain;
      ghost var s, before, spans: seq<Span> := Rest(), ranges, [];
      ok, range, k := false, INVALID, Class(false, []);
      var isBegin, negate, step, start, current := true, false, 0, INVALID, INVALID;
      while true
        invariant InText() && step <= 2 && (step > 0 ==> spans != []) && ranges == before + Chain(|before|, spans)
        invariant start == if spans == [] then INVALID else |before|
        invariant current == if spans == [] then INVALID else |before| + |spans| - 1
        invariant isBegin ==> spans == [] && step == 0 && !negate && Rest() == s
        invariant !isBegin ==> ClassLoop(Rest(), negate, step, spans) == ParseClass(s)
        decreases |source| - pos
      {
        var c := Take();
        if c == 0 {
          return;
        }
        if isBegin {
          isBegin := false;
          if c == '^' as nat {
            negate := true;
            continue;
          }
        }
        if c == ']' as nat {
          if start != INVALID {
            FinishClass(negate, step, start, current, before, spans);
            ok, range, k := true, start, ParseClass(s).k;
          }
          return;
        }
        if c == '\\' as nat {
          var escaped;
          escaped, c := ClassEscape();
          if !escaped {
            return;
          }
        }
        ghost var more := Added(spans, step, c).0;
        step, start, current := AddToClass(c, step, start, current, before, spans);
        spans := more;
      }
    }

    // After a backslash in a class, which may also be a backspace.
    method ClassEscape() returns (ok: bool, c: nat)
      requires InText()
      modifies `pos
      ensures InText() && ok == (Escape(old(Rest())).Char? || (old(Rest()) != [] && old(Rest())[0] == 'b' as nat))
      ensures ok ==> 0 < c < 0x110000
      ensures ok ==> if old(Rest())[0] == 'b' as nat
        then c == 8 && Rest() == old(Rest())[1..]
        else c == Escape(old(Rest())).c && Rest() == Escape(old(Rest())).rest
    {
      if Peek() == 'b' as nat {
        var _ := Take();
        ok, c := true, 8;
      } else {
        ok, c := CharacterEscape();
      }
    }

    // The pattern

    // The stacks with the expressions instead of the operands.
    ghost function View(): Stacks
      reads `trees, `ops, `counts, `anchorBegin, `anchorEnd
    {
      Stacks(trees, ops, counts, anchorBegin, anchorEnd)
    }

    ghost predicate Parsing()
      reads `states, `ranges, `operands, `trees, `ops, `counts, `pos
    {
      InText() && Stacked() && Balanced(ops, counts) && Forward(ranges)
    }

    // Evaluates operators as long as they bind.
    method UnwindWhile(alternatives: bool) returns (ok: bool)
      requires Stacked() && Balanced(ops, counts)
      modifies `states, `operands, `trees, `ops
      ensures Stacked() && ok == Unwind(old(trees), old(ops), alternatives).Unwound?
      ensures ok ==> Unwind(old(trees), old(ops), alternatives) == Unwound(trees, ops) && Balanced(ops, counts)
    {
      hide Laid, Evaluate;
      while ops.Cons? && Binds(ops.head, alternatives)
        invariant Stacked() && Balanced(ops, counts)
        invariant Unwind(trees, ops, alternatives) == Unwind(old(trees), old(ops), alternatives)
        decreases ops
      {
        ghost var was := trees;
        ok := Eval(ops.head);
        if !ok {
          return;
        }
        ops := ops.tail;
      }
      ok := true;
    }

    method ParseBar() returns (ok: bool)
      requires Parsing()
      modifies `states, `operands, `trees, `ops, `counts
      ensures var r := Bar(old(View()), Rest()); ok == r.Next? && (ok ==> Parsing() && r == Next(View(), Rest()))
    {
      hide Laid;
      ok := UnwindWhile(false);
      if ok {
        BalancedAnyCount(ops, counts.head, 0, counts.tail);
        ops := Cons(Alternation, ops);
        counts := Cons(0, counts.tail);
      }
    }

    method ParseClose() returns (ok: bool)
      requires Parsing()
      modifies `states, `operands, `trees, `ops, `counts
      ensures var r := Close(old(View()), Rest()); ok == r.Next? && (ok ==> Parsing() && r == Next(View(), Rest()))
    {
      hide Laid;
      ok := UnwindWhile(true);
      if ok {
        ok := ops.Cons?;
        if ok {
          UnwoundIs(old(trees), old(ops), true);
          ops := ops.tail;
          counts := counts.tail;
          ImplicitConcatenation();
        }
      }
    }

    // The bounds of a counted repetition.
    method ParseRepetition() returns (ok: bool, n: nat, m: nat)
      requires InText()
      modifies `pos
      ensures InText() && ok == ParseBounds(old(Rest())).Bounds?
      ensures ok ==> ParseBounds(old(Rest())) == Bounds(n, m, Rest())
    {
      m := 0;
      ok, n := ParseUnsigned();
      if !ok {
        return;
      }
      if Peek() == ',' as nat {
        var _ := Take();
        if Peek() == '}' as nat {
          m := INFINITY;
        } else {
          ok, m := ParseUnsigned();
          ok := ok && m >= n;
        }
      } else {
        m := n;
      }
    }

    method ParseBrace() returns (ok: bool)
      requires Parsing()
      modifies `states, `operands, `trees, `pos
      ensures var r := Brace(old(View()), old(Rest()));
        InText() && ok == r.Next? && (ok ==> Parsing() && View() == r.k && Rest() == r.rest)
    {
      hide Laid, Expand, ParseBounds;
      ghost var s := Rest();
      var n, m;
      ok, n, m := ParseRepetition();
      if ok {
        ok := EvalQuantifier(n, m);
        ok := ok && Peek() == '}' as nat;
        if ok {
          var _ := Take();
        }
      }
    }

    method ParseAtom(codepoint: nat, rangeStart: int, ghost a: Atom)
      requires Parsing()
      requires match a
        case Literal(c) => codepoint == c
        case AnyOne => codepoint == ANY_CHARACTER
        case OneOf(k) => codepoint == RANGE_CHARACTER && ClassAt(ranges, rangeStart, k)
      modifies `states, `operands, `trees, `ops, `counts
      ensures Parsing() && View() == Operand(old(View()), One(a))
    {
      hide Laid, ClassAt;
      PushOperand(codepoint, rangeStart, a);
      ImplicitConcatenation();
    }

    // A character class as an operand.
    method ParseBrackets() returns (ok: bool)
      requires Parsing()
      modifies `states, `ranges, `operands, `trees, `ops, `counts, `pos
      ensures var r := ParseClass(old(Rest()));
        InText() && ok == r.Classed? &&
        (ok ==> Parsing() && View() == Operand(old(View()), One(OneOf(r.k))) && Rest() == r.rest)
    {
      hide Laid, ClassAt, ParseClass;
      ghost var m := Automaton();
      var range;
      ghost var k;
      ok, range, k := ParseRange();
      if ok {
        SameStates(m, Automaton());
        LaidKept(m, Automaton(), trees, operands, |states|);
        ParseAtom(RANGE_CHARACTER, range, OneOf(k));
      }
    }

    static lemma SameStates(m: Nfa, t: Nfa)
      requires m.states == t.states && m.ranges <= t.ranges
      ensures Same(m, t, 0, |m.states|)
    {
      forall i | 0 <= i < |m.states| ensures SameState(m, t, i) {
      }
    }

    method ParseEscaped() returns (ok: bool)
      requires Parsing()
      modifies `states, `operands, `trees, `ops, `counts, `pos
      ensures var r := Escape(old(Rest()));
        InText() && ok == r.Char? &&
        (ok ==> Parsing() && View() == Operand(old(View()), One(Literal(r.c))) && Rest() == r.rest)
    {
      hide Laid;
      var c;
      ok, c := CharacterEscape();
      if ok {
        ParseAtom(c, INVALID, Literal(c));
      }
    }

    // What the next character of the pattern does.
    method ParseNext() returns (ok: bool)
      requires Parsing() && Rest() != []
      modifies `states, `ranges, `operands, `trees, `ops, `counts, `pos, `anchorBegin, `anchorEnd
      ensures var r := Step(old(View()), old(Rest()));
        InText() && ok == r.Next? && (ok ==> Parsing() && View() == r.k && Rest() == r.rest)
    {
      hide Laid, Evaluate, Bar, Close, Brace, ParseClass, Escape, Operand;
      ok := true;
      var c := Take();
      if c == '^' as nat {
        anchorBegin := true;
      } else if c == '$' as nat {
        anchorEnd := true;
      } else if c == '|' as nat {
        ok := ParseBar();
      } else if c == '(' as nat {
        ops := Cons(LeftParenthesis, ops);
        counts := Cons(0, counts);
      } else if c == ')' as nat {
        ok := ParseClose();
      } else if c == '?' as nat {
        ok := Eval(ZeroOrOne);
      } else if c == '*' as nat {
        ok := Eval(ZeroOrMore);
      } else if c == '+' as nat {
        ok := Eval(OneOrMore);
      } else if c == '{' as nat {
        ok := ParseBrace();
      } else if c == '.' as nat {
        ParseAtom(ANY_CHARACTER, INVALID, AnyOne);
      } else if c == '[' as nat {
        ok := ParseBrackets();
      } else if c == '\\' as nat {
        ok := ParseEscaped();
      } else {
        ParseAtom(c, INVALID, Literal(c));
      }
    }

    // The automaton is the compiled expression.
    ghost predicate Runs(re: Re)
      reads `states, `ranges, `root
    {
      Compiled(Automaton(), re) && root == Start(re, 0) && Forward(ranges)
    }

    method Parse()
      requires Parsing() && View() == EMPTY && pos == 0 && root == INVALID
      modifies `states, `ranges, `root, `meaning, `operands, `trees, `ops, `counts, `pos, `anchorBegin, `anchorEnd
      ensures IsValid() == Compile(source).Valid?
      ensures IsValid() ==> Runs(meaning) && Compile(source) == RegexSyntax.Valid(meaning, anchorBegin, anchorEnd)
    {
      hide Laid, Step, Unwind;
      assert Rest() == source;
      while Peek() != 0
        invariant Parsing() && root == INVALID && Run(View(), Rest()) == Run(EMPTY, source)
        decreases |source| - pos
      {
        var ok := ParseNext();
        if !ok {
          return;
        }
      }
      FinishParse();
    }

    // The end of the pattern: the only operand is linked to the matching state.
    method FinishParse()
      requires Parsing() && root == INVALID
      modifies `states, `root, `meaning, `operands, `trees, `ops
      ensures IsValid() == Finish(old(View())).Valid?
      ensures IsValid() ==> Runs(meaning) && Finish(old(View())) == RegexSyntax.Valid(meaning, anchorBegin, anchorEnd)
    {
      hide Laid, OpenAt, Built, Ends, Start, Linked, PatchedState;
      var ok := UnwindWhile(true);
      if !ok || ops.Cons? {
        return;
      }
      ghost var m, re := Automaton(), if trees.Cons? then trees.head else One(AnyOne);
      SameHeight(m, trees, operands, |states|);
      if operands.Cons? && operands.tail.Nil? {
        var e := operands.head;
        LaidTop(m, trees, operands, |states|);
        LaidEmpty(m, trees.tail, operands.tail, |states| - Size(re));
        OpenFacts(m, re, 0, e);
        var s := NewState(INVALID, INVALID, 0);
        LinkedAfterPush(m.states, MATCHING, Ends(re, 0));
        Patch(e.out, s, Ends(re, 0));
        PatchedAfterPush(m, Automaton(), MATCHING, re, 0, s);
        Completed(m, Automaton(), re, e);
        root, meaning := e.start, re;
      }
    }

    // Searching

    // The character is in the class whose ranges start at `rangeIndex`.
    method InRanges(rangeIndex: int, c: CodePoint) returns (found: bool)
      requires Forward(ranges) && 0 <= rangeIndex < |ranges|
      ensures found == MatchRange(ranges, rangeIndex, c)
    {
      var yes := ranges[rangeIndex].start < NEGATION;
      var i := rangeIndex;
      while i != INVALID
        invariant i == INVALID || 0 <= i < |ranges|
        invariant Hits(ranges, rangeIndex, c) == Hits(ranges, i, c)
        decreases if i == INVALID then 0 else |ranges| - i
      {
        if ranges[i].start % NEGATION <= c <= ranges[i].end {
          return yes;
        }
        i := ranges[i].next;
      }
      found := !yes;
    }

    method Matches(s: State, c: CodePoint) returns (yes: bool)
      requires Forward(ranges)
      ensures yes == Takes(Automaton(), s, c)
    {
      yes := s.codepoint == c || s.codepoint == ANY_CHARACTER;
      if !yes && s.codepoint == RANGE_CHARACTER && 0 <= s.rangeStart < |ranges| {
        yes := InRanges(s.rangeStart, c);
      }
    }

    // The first `n` states of the list are different, and are those of the state set.
    ghost predicate Listed(list: array<int>, n: nat)
      reads `states, `stateSet, stateSet, list
    {
      && n <= list.Length == |states| == stateSet.Length && Distinct(list[..n], |states|)
      && forall i :: 0 <= i < |states| ==> (stateSet[i] <==> i in list[..n])
    }

    method ClearStateSet()
      modifies stateSet
      ensures forall i :: 0 <= i < stateSet.Length ==> !stateSet[i]
    {
      var i := 0;
      while i < stateSet.Length
        invariant 0 <= i <= stateSet.Length && forall k :: 0 <= k < i ==> !stateSet[k]
      {
        stateSet[i] := false;
        i := i + 1;
      }
    }

    // Adds a state that takes characters, or matches, unless it is there.
    method AddLeaf(list: array<int>, n: nat, index: int) returns (n1: nat)
      requires Listed(list, n) && 0 <= index < |states|
      modifies list, stateSet
      ensures Listed(list, n1) && Elements(list[..n1]) == old(Elements(list[..n])) + {index}
    {
      n1 := n;
      ghost var before := list[..n];
      if !stateSet[index] {
        assert Distinct(before + [index], |states|);
        DistinctFit(before + [index], |states|);
        stateSet[index] := true;
        list[n] := index;
        n1 := n + 1;
        assert list[..n1] == before + [index];
      }
    }

    // Adds the states that `index` leads to through splits; `matched` tells whether the matching state
    // is one of them. That ends, and the list has room for them.
    method AddState(list: array<int>, n: nat, index: int, ghost d: nat) returns (n1: nat, matched: bool)
      requires Listed(list, n) && Shallow(Automaton(), index, d)
      modifies list, stateSet
      ensures Listed(list, n1) && Elements(list[..n1]) == old(Elements(list[..n])) + Closure(Automaton(), index, d)
      ensures matched == Matching(Automaton(), Closure(Automaton(), index, d))
      decreases d
    {
      var s := states[index];
      if s.out1 != INVALID {
        n1, matched := AddState(list, n, s.out, d - 1);
        var matched1;
        n1, matched1 := AddState(list, n1, s.out1, d - 1);
        matched := matched1 || matched;
        ClosureResting(Automaton(), s.out, d - 1);
        ClosureResting(Automaton(), s.out1, d - 1);
        MatchingUnion(Automaton(), Closure(Automaton(), s.out, d - 1), Closure(Automaton(), s.out1, d - 1));
      } else {
        n1 := AddLeaf(list, n, index);
        matched := s.out == INVALID;
      }
    }

    // The automaton can be run: following splits ends, within `d` steps.
    ghost predicate Searchable(d: nat)
      reads `states, `ranges, `root, `stateSet, `state0, `state1
    {
      && Forward(ranges) && Ready(Automaton(), d) && Shallow(Automaton(), root, d)
      && state0 != state1 && state0.Length == state1.Length == stateSet.Length == |states|
    }

    // The states that follow from those of `current` on the character `c`, in the list `next`; unless
    // the search is anchored at the beginning, the start state is active again. `matched` tells whether
    // a transition has led to the matching state; without an anchor at the end, that is enough.
    method StepStates(current: array<int>, n: nat, next: array<int>, c: CodePoint, begin: bool, end: bool, ghost d: nat)
      returns (n1: nat, matched: bool)
      requires Searchable(d) && current != next && current.Length == next.Length == |states| && n <= |states|
      requires Resting(Automaton(), Elements(current[..n]))
      modifies next, stateSet
      ensures current[..n] == old(current[..n])
      ensures var m, active := Automaton(), Elements(old(current[..n]));
        if matched && !end then Matching(m, Moved(m, active, c, d))
        else
          && matched == Matching(m, Moved(m, active, c, d)) && Listed(next, n1)
          && Elements(next[..n1]) == Moved(m, active, c, d) + if begin || n == 0 then {} else Closure(m, root, d)
    {
      hide Moved, Closure, Matching, Resting, Takes, Ready, Shallow;
      ghost var m, list := Automaton(), current[..n];
      ClearStateSet();
      n1, matched := 0, false;
      var i := 0;
      NoneMoved(m, c, d);
      assert next[..0] == [] && list[..0] == [];
      while i < n
        invariant 0 <= i <= n == |list| && current[..n] == list && Listed(next, n1) && Resting(m, Elements(list[..i]))
        invariant matched == Matching(m, Moved(m, Elements(list[..i]), c, d)) && (matched ==> end)
        invariant Elements(next[..n1]) ==
          Moved(m, Elements(list[..i]), c, d) + if begin || i == 0 then {} else Closure(m, root, d)
      {
        ghost var done := Elements(list[..i]);
        var at := current[i];
        assert list[..i + 1] == list[..i] + [at] && Elements(list[..i + 1]) == done + {at};
        RestingPart(m, list, i + 1);
        MovedMore(m, done, at, c, d);
        TakesShallow(m, done, at, c, d);
        var sr := states[at];
        var yes := Matches(sr, c);
        if yes {
          var found;
          n1, found := AddState(next, n1, sr.out, d);
          matched := found || matched;
          MatchingMoved(m, done, at, c, d);
          if !end && matched {
            MatchingAll(m, list, i + 1, c, d);
            return;
          }
        }
        if !begin {
          var ignored;
          n1, ignored := AddState(next, n1, root, d);
        }
        i := i + 1;
      }
      assert list[..n] == list;
    }

    method SearchWithAnchoring(text: Word, begin: bool, end: bool, ghost d: nat) returns (found: bool)
      requires Searchable(d)
      modifies state0, state1, stateSet
      ensures found <==> Reported(Automaton(), root, text, begin, end)
    {
      hide Progress, Reported, Ready, Shallow, Moved, Closure, Matching, Resting;
      ghost var m := Automaton();
      var current, next := state0, state1;
      ClearStateSet();
      assert current[..0] == [];
      var n;
      n, found := AddState(current, 0, root, d);
      assert Elements(current[..n]) == Closure(m, root, d) by { EmptyUnion(Closure(m, root, d)); }
      ProgressStart(m, root, text, begin, end, d);
      var k := 0;
      while n > 0 && k < |text|
        invariant current != next && {current, next} == {state0, state1} && n <= |states|
        invariant 0 <= k <= |text| && Progress(m, root, Elements(current[..n]), found, text, k, begin, end)
        decreases |text| - k
      {
        ghost var active, was := Elements(current[..n]), found;
        SomeElement(current[..n]);
        ProgressResting(m, root, active, was, text, k, begin, end);
        var n1;
        n1, found := StepStates(current, n, next, text[k], begin, end, d);
        if found && !end {
          ReportedEarly(m, root, active, was, text, k, begin, d);
          return;
        }
        ProgressStep(m, root, active, was, Elements(next[..n1]), found, text, k, begin, end, d);
        current, next, n := next, current, n1;
        k := k + 1;
      }
      NoElement(current[..n]);
      ReportedFinally(m, root, Elements(current[..n]), found, text, k, begin, end);
    }

    // The whole text is a word of the language.
    method Match(text: Word) returns (found: bool)
      requires Valid() && IsValid() && Tame(meaning)
      modifies state0, state1, stateSet
      ensures found <==> In(meaning, text)
    {
      TameIsReady(Automaton(), meaning);
      ReportedOccurs(Automaton(), meaning, text, true, true);
      MatchIsWhole(meaning, text);
      found := SearchWithAnchoring(text, true, true, Depth(meaning) + 1);
    }

    // A part of the text is a word of the language, where the anchors of the pattern allow; in a text
    // that is not empty, a part that is not.
    method Search(text: Word) returns (found: bool)
      requires Valid() && IsValid() && Tame(meaning)
      modifies state0, state1, stateSet
      ensures found <==> Occurs(meaning, text, anchorBegin, anchorEnd, if text == [] then 0 else 1)
    {
      TameIsReady(Automaton(), meaning);
      ReportedOccurs(Automaton(), meaning, text, anchorBegin, anchorEnd);
      found := SearchWithAnchoring(text, anchorBegin, anchorEnd, Depth(meaning) + 1);
    }
  }

  // For every pattern, compiling its text and matching decides its language.
  method MatchPattern(p: RegexPattern.Pattern, text: Word) returns (found: bool)
    requires RegexPattern.ChoiceOk(p.body) && Tame(RegexPattern.ChoiceRe(p.body))
    ensures found <==> In(RegexPattern.ChoiceRe(p.body), text)
  {
    RegexPattern.CompileText(p);
    var m := new Machine(RegexPattern.Text(p));
    found := m.Match(text);
  }

  method SearchPattern(p: RegexPattern.Pattern, text: Word) returns (found: bool)
    requires RegexPattern.ChoiceOk(p.body) && Tame(RegexPattern.ChoiceRe(p.body))
    ensures found <==> Occurs(RegexPattern.ChoiceRe(p.body), text, p.begin, p.end, if text == [] then 0 else 1)
  {
    RegexPattern.CompileText(p);
    var m := new Machine(RegexPattern.Text(p));
    found := m.Search(text);
  }
}
