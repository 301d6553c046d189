/** The automaton of a regular expression: how its states lie, what it accepts, and that this is the
    language of the expression. */
module RegexNfa {
  import opened RegexLanguage

  const INVALID: int := -1
  const ANY_CHARACTER: nat := 0xFFFF_FFFF
  const RANGE_CHARACTER: nat := 0xFFFF_FFFE
  const NEGATION: nat := 0x8000_0000

  // A state with a valid `out1` is a split. The matching state has neither `out` nor `out1`.
  datatype State = State(out: int, out1: int, rangeStart: int, codepoint: nat)

  // A link of the list of ranges of a character class; the first carries the negation.
  datatype Range = Range(start: nat, end: nat, next: int)

  datatype Nfa = Nfa(states: seq<State>, ranges: seq<Range>)

  const MATCHING := State(INVALID, INVALID, INVALID, 0)

  // Character classes

  // One of the ranges from `i` on holds the character.
  predicate Hits(ranges: seq<Range>, i: int, c: CodePoint)
    decreases |ranges| - i
  {
    0 <= i < |ranges| &&
    (ranges[i].start % NEGATION <= c <= ranges[i].end || (i < ranges[i].next && Hits(ranges, ranges[i].next, c)))
  }

  predicate MatchRange(ranges: seq<Range>, i: int, c: CodePoint) {
    0 <= i < |ranges| && Hits(ranges, i, c) != (ranges[i].start >= NEGATION)
  }

  // Every list of ranges leads forward, and ends.
  predicate Forward(ranges: seq<Range>) {
    forall i :: 0 <= i < |ranges| ==> ranges[i].next == INVALID || i < ranges[i].next < |ranges|
  }

  // The ranges of a class lie one after the other.
  predicate ClassAt(ranges: seq<Range>, i: int, k: Class) {
    && 0 <= i && 0 < |k.spans| && i + |k.spans| <= |ranges|
    && forall j :: 0 <= j < |k.spans| ==> ranges[i + j] == RangeOf(k, i, j)
  }

  function RangeOf(k: Class, i: int, j: nat): Range
    requires j < |k.spans|
  {
    Range((if j == 0 && k.negated then NEGATION else 0) + k.spans[j].first, k.spans[j].last,
          if j == |k.spans| - 1 then INVALID else i + j + 1)
  }

  lemma {:induction false} HitsFrom(ranges: seq<Range>, i: int, k: Class, j: nat, c: CodePoint)
    requires ClassAt(ranges, i, k) && j < |k.spans|
    ensures Hits(ranges, i + j, c) <==> Within(c, k.spans[j..])
    decreases |k.spans| - j
  {
    var r, rest := ranges[i + j], k.spans[j..];
    assert r == RangeOf(k, i, j) && rest[0] == k.spans[j];
    if j + 1 < |k.spans| {
      HitsFrom(ranges, i, k, j + 1, c);
      assert rest[1..] == k.spans[j + 1..];
    }
    WithinStep(c, rest);
  }

  lemma WithinStep(c: CodePoint, spans: seq<Span>)
    requires spans != []
    ensures Within(c, spans) <==> spans[0].first <= c <= spans[0].last || Within(c, spans[1..])
  {
    if i :| 0 <= i < |spans[1..]| && spans[1..][i].first <= c <= spans[1..][i].last {
      assert spans[i + 1] == spans[1..][i];
    }
    if i :| 0 < i < |spans| && spans[i].first <= c <= spans[i].last {
      assert spans[1..][i - 1] == spans[i];
    }
  }

  // The list of ranges matches exactly the characters of the class.
  lemma MatchRangeIs(ranges: seq<Range>, i: int, k: Class, c: CodePoint)
    requires ClassAt(ranges, i, k)
    ensures MatchRange(ranges, i, c) <==> InClass(c, k)
  {
    HitsFrom(ranges, i, k, 0, c);
    assert ranges[i + 0] == RangeOf(k, i, 0) && k.spans[0..] == k.spans;
  }

  // Acceptance

  predicate Takes(m: Nfa, s: State, c: CodePoint) {
    || s.codepoint == c || s.codepoint == ANY_CHARACTER
    || (s.codepoint == RANGE_CHARACTER && MatchRange(m.ranges, s.rangeStart, c))
  }

  // From state `i` the automaton accepts the word in fewer than `f` steps.
  predicate Acc(m: Nfa, i: int, w: Word, f: nat)
    decreases f
  {
    f > 0 && 0 <= i < |m.states| &&
    var s := m.states[i];
    if s.out1 != INVALID then Acc(m, s.out, w, f - 1) || Acc(m, s.out1, w, f - 1)
    else if s.out == INVALID then w == []
    else w != [] && Takes(m, s, w[0]) && Acc(m, s.out, w[1..], f - 1)
  }

  ghost predicate Accepts(m: Nfa, i: int, w: Word) {
    exists f: nat :: Acc(m, i, w, f)
  }

  lemma {:induction false} AccMore(m: Nfa, i: int, w: Word, f: nat, g: nat)
    requires Acc(m, i, w, f) && f <= g
    ensures Acc(m, i, w, g)
    decreases f
  {
    var s := m.states[i];
    if s.out1 != INVALID {
      if Acc(m, s.out, w, f - 1) {
        AccMore(m, s.out, w, f - 1, g - 1);
      } else {
        AccMore(m, s.out1, w, f - 1, g - 1);
      }
    } else if s.out != INVALID {
      AccMore(m, s.out, w[1..], f - 1, g - 1);
    }
  }

  lemma {:induction false} AcceptsSplit(m: Nfa, i: int, w: Word)
    requires 0 <= i < |m.states| && m.states[i].out1 != INVALID
    ensures Accepts(m, i, w) <==> Accepts(m, m.states[i].out, w) || Accepts(m, m.states[i].out1, w)
  {
    var s := m.states[i];
    if f: nat :| Acc(m, i, w, f) {
      assert Acc(m, s.out, w, f - 1) || Acc(m, s.out1, w, f - 1);
    }
    if f: nat :| Acc(m, s.out, w, f) {
      assert Acc(m, i, w, f + 1);
    }
    if f: nat :| Acc(m, s.out1, w, f) {
      assert Acc(m, i, w, f + 1);
    }
  }

  lemma {:induction false} AcceptsStep(m: Nfa, i: int, w: Word)
    requires 0 <= i < |m.states| && m.states[i].out1 == INVALID && m.states[i].out != INVALID
    ensures Accepts(m, i, w) <==> w != [] && Takes(m, m.states[i], w[0]) && Accepts(m, m.states[i].out, w[1..])
  {
    var s := m.states[i];
    if f: nat :| Acc(m, i, w, f) {
      assert Acc(m, s.out, w[1..], f - 1);
    }
    if w != [] && Takes(m, s, w[0]) && Accepts(m, s.out, w[1..]) {
      var f: nat :| Acc(m, s.out, w[1..], f);
      assert Acc(m, i, w, f + 1);
    }
  }

  lemma {:induction false} AcceptsEnd(m: Nfa, i: int, w: Word)
    requires 0 <= i < |m.states| && m.states[i].out1 == INVALID && m.states[i].out == INVALID
    ensures Accepts(m, i, w) <==> w == []
  {
    if w == [] {
      assert Acc(m, i, w, 1);
    }
  }

  // Layout

  // How many states an expression takes.
  function Size(re: Re): (n: nat)
    ensures n > 0
  {
    match re
    case One(_) => 1
    case Cat(l, r) => Size(l) + Size(r)
    case Alt(l, r) => Size(l) + Size(r) + 1
    case Opt(b) => Size(b) + 1
    case Star(b) => Size(b) + 1
    case Plus(b) => Size(b) + 1
  }

  // Where it starts when its states are those from `lo` on.
  function Start(re: Re, lo: nat): (i: nat)
    ensures lo <= i < lo + Size(re)
  {
    match re
    case One(_) => lo
    case Cat(l, r) => Start(l, lo)
    case Alt(l, r) => lo + Size(l) + Size(r)
    case Opt(b) => lo + Size(b)
    case Star(b) => lo + Size(b)
    case Plus(b) => Start(b, lo)
  }

  // The states whose `out` leads out of it, in the order in which they are linked while it is open.
  function Ends(re: Re, lo: nat): (e: seq<nat>)
    ensures e != []
  {
    match re
    case One(_) => [lo]
    case Cat(l, r) => Ends(r, lo + Size(l))
    case Alt(l, r) => Ends(l, lo) + Ends(r, lo + Size(l))
    case Opt(b) => Ends(b, lo) + [lo + Size(b)]
    case Star(b) => [lo + Size(b)]
    case Plus(b) => [lo + Size(b)]
  }

  predicate Ordered(e: seq<nat>, lo: nat, hi: nat) {
    && (forall k :: 0 <= k < |e| ==> lo <= e[k] < hi)
    && (forall j, k :: 0 <= j < k < |e| ==> e[j] < e[k])
  }

  lemma {:induction false} EndsOrdered(re: Re, lo: nat)
    ensures Ordered(Ends(re, lo), lo, lo + Size(re))
  {
    match re
    case One(_) =>
    case Cat(l, r) => EndsOrdered(r, lo + Size(l));
    case Alt(l, r) => EndsOrdered(l, lo); EndsOrdered(r, lo + Size(l));
    case Opt(b) => EndsOrdered(b, lo);
    case Star(_) =>
    case Plus(_) =>
  }

  // All those states lead to `x`.
  predicate LeadTo(states: seq<State>, e: seq<nat>, x: int) {
    forall k :: 0 <= k < |e| ==> e[k] < |states| && states[e[k]].out == x
  }

  predicate AtomAt(m: Nfa, i: nat, a: Atom)
    requires i < |m.states|
  {
    var s := m.states[i];
    && s.out1 == INVALID
    && match a
       case Literal(c) => s.codepoint == c
       case AnyOne => s.codepoint == ANY_CHARACTER
       case OneOf(k) => s.codepoint == RANGE_CHARACTER && ClassAt(m.ranges, s.rangeStart, k)
  }

  lemma AtomTakes(m: Nfa, i: nat, a: Atom, c: CodePoint)
    requires i < |m.states| && AtomAt(m, i, a)
    ensures Takes(m, m.states[i], c) <==> Fits(a, c)
  {
    if a.OneOf? {
      MatchRangeIs(m.ranges, m.states[i].rangeStart, a.k, c);
    }
  }

  // The states from `lo` on are those of the expression; where its ends lead is left open.
  predicate Built(m: Nfa, re: Re, lo: nat) {
    lo + Size(re) <= |m.states| &&
    match re
    case One(a) => AtomAt(m, lo, a)
    case Cat(l, r) =>
      var mid := lo + Size(l);
      Built(m, l, lo) && Built(m, r, mid) && LeadTo(m.states, Ends(l, lo), Start(r, mid))
    case Alt(l, r) =>
      var mid := lo + Size(l);
      var split := m.states[mid + Size(r)];
      Built(m, l, lo) && Built(m, r, mid) && split.out == Start(l, lo) && split.out1 == Start(r, mid)
    case Opt(b) =>
      Built(m, b, lo) && m.states[lo + Size(b)].out1 == Start(b, lo)
    case Star(b) =>
      Built(m, b, lo) && m.states[lo + Size(b)].out1 == Start(b, lo) && LeadTo(m.states, Ends(b, lo), lo + Size(b))
    case Plus(b) =>
      Built(m, b, lo) && m.states[lo + Size(b)].out1 == Start(b, lo) && LeadTo(m.states, Ends(b, lo), lo + Size(b))
  }

  // The parts of a built expression

  lemma SequenceParts(m: Nfa, l: Re, r: Re, lo: nat, x: int)
    requires Built(m, Cat(l, r), lo) && LeadTo(m.states, Ends(Cat(l, r), lo), x)
    ensures var mid := lo + Size(l);
      && Built(m, l, lo) && LeadTo(m.states, Ends(l, lo), Start(r, mid))
      && Built(m, r, mid) && LeadTo(m.states, Ends(r, mid), x) && Start(Cat(l, r), lo) == Start(l, lo)
  {
  }

  lemma AlternativeParts(m: Nfa, l: Re, r: Re, lo: nat, x: int)
    requires Built(m, Alt(l, r), lo) && LeadTo(m.states, Ends(Alt(l, r), lo), x)
    ensures var mid, s := lo + Size(l), lo + Size(l) + Size(r);
      && Built(m, l, lo) && LeadTo(m.states, Ends(l, lo), x) && Built(m, r, mid) && LeadTo(m.states, Ends(r, mid), x)
      && s < |m.states| && m.states[s].out == Start(l, lo) && m.states[s].out1 == Start(r, mid)
      && Start(Alt(l, r), lo) == s
  {
    LeadPrefix(m.states, Ends(l, lo), Ends(r, lo + Size(l)), x);
  }

  lemma OptionParts(m: Nfa, b: Re, lo: nat, x: int)
    requires Built(m, Opt(b), lo) && LeadTo(m.states, Ends(Opt(b), lo), x)
    ensures var s := lo + Size(b);
      && Built(m, b, lo) && LeadTo(m.states, Ends(b, lo), x)
      && s < |m.states| && m.states[s].out == x && m.states[s].out1 == Start(b, lo) && Start(Opt(b), lo) == s
  {
    var last: seq<nat> := [lo + Size(b)];
    LeadPrefix(m.states, Ends(b, lo), last, x);
    assert last[0] == lo + Size(b);
  }

  lemma LoopParts(m: Nfa, re: Re, b: Re, lo: nat, x: int)
    requires (re == Star(b) || re == Plus(b)) && Built(m, re, lo) && LeadTo(m.states, Ends(re, lo), x)
    ensures Loop(m, b, lo) && m.states[lo + Size(b)].out == x
    ensures Start(re, lo) == if re.Star? then lo + Size(b) else Start(b, lo)
  {
    assert Ends(re, lo)[0] == lo + Size(b);
  }

  lemma AtomParts(m: Nfa, a: Atom, lo: nat, x: int)
    requires Built(m, One(a), lo) && LeadTo(m.states, Ends(One(a), lo), x)
    ensures lo < |m.states| && m.states[lo].out1 == INVALID && m.states[lo].out == x
  {
    assert Ends(One(a), lo)[0] == lo;
  }

  // The language

  // What is accepted from the start is a word of the language, then what is accepted where the ends
  // lead.
  lemma {:induction false} AcceptedIsWord(m: Nfa, re: Re, lo: nat, x: int, w: Word, f: nat) returns (i: int)
    requires Built(m, re, lo) && LeadTo(m.states, Ends(re, lo), x) && x != INVALID && Acc(m, Start(re, lo), w, f)
    ensures f > 0 && Cut(w, i) && In(re, w[..i]) && Acc(m, x, w[i..], f - 1)
    decreases Size(re), f, 1
  {
    match re
    case One(a) =>
      assert m.states[Ends(re, lo)[0]].out == x;
      AtomTakes(m, lo, a, w[0]);
      i := 1;
    case Cat(l, r) => i := SequenceIsWord(m, l, r, lo, x, w, f);
    case Alt(l, r) => i := AlternativeIsWord(m, l, r, lo, x, w, f);
    case Opt(b) => i := OptionIsWord(m, b, lo, x, w, f);
    case Star(b) =>
      assert m.states[Ends(re, lo)[0]].out == x;
      i := LoopIsWord(m, b, lo, x, w, f);
    case Plus(b) =>
      assert m.states[Ends(re, lo)[0]].out == x;
      i := RepetitionIsWord(m, b, lo, x, w, f);
  }

  lemma {:induction false} SequenceIsWord(m: Nfa, l: Re, r: Re, lo: nat, x: int, w: Word, f: nat) returns (i: int)
    requires Built(m, Cat(l, r), lo) && LeadTo(m.states, Ends(Cat(l, r), lo), x) && x != INVALID
    requires Acc(m, Start(l, lo), w, f)
    ensures f > 0 && Cut(w, i) && In(Cat(l, r), w[..i]) && Acc(m, x, w[i..], f - 1)
    decreases Size(l) + Size(r), f, 0
  {
    hide Built, LeadTo, Ends, Start, In, Acc;
    SequenceParts(m, l, r, lo, x);
    var mid := lo + Size(l);
    var j := AcceptedIsWord(m, l, lo, Start(r, mid), w, f);
    var h := AcceptedIsWord(m, r, mid, x, w[j..], f - 1);
    i := j + h;
    Slices(w, j, i);
    InCat(l, r, w[..j], w[j..][..h]);
    AccMore(m, x, w[i..], f - 2, f - 1);
  }

  lemma {:induction false} OptionIsWord(m: Nfa, b: Re, lo: nat, x: int, w: Word, f: nat) returns (i: int)
    requires Built(m, Opt(b), lo) && LeadTo(m.states, Ends(Opt(b), lo), x) && x != INVALID
    requires Acc(m, lo + Size(b), w, f)
    ensures f > 0 && Cut(w, i) && In(Opt(b), w[..i]) && Acc(m, x, w[i..], f - 1)
    decreases Size(b) + 1, f, 0
  {
    OptionParts(m, b, lo, x);
    if Acc(m, x, w, f - 1) {
      i := 0;
      assert w[0..] == w && w[..0] == [];
    } else {
      i := AcceptedIsWord(m, b, lo, x, w, f - 1);
      AccMore(m, x, w[i..], f - 2, f - 1);
    }
  }

  lemma {:induction false} RepetitionIsWord(m: Nfa, b: Re, lo: nat, x: int, w: Word, f: nat) returns (i: int)
    requires Loop(m, b, lo) && m.states[lo + Size(b)].out == x != INVALID && Acc(m, Start(b, lo), w, f)
    ensures f > 0 && Cut(w, i) && In(Plus(b), w[..i]) && Acc(m, x, w[i..], f - 1)
    decreases Size(b) + 1, f, 0
  {
    var j := AcceptedIsWord(m, b, lo, lo + Size(b), w, f);
    var h := LoopIsWord(m, b, lo, x, w[j..], f - 1);
    i := j + h;
    Slices(w, j, i);
    assert Cut(w[..i], j) && w[..i][..j] == w[..j] && w[..i][j..] == w[j..][..h];
    AccMore(m, x, w[i..], f - 2, f - 1);
  }

  lemma LeadPrefix(states: seq<State>, a: seq<nat>, b: seq<nat>, x: int)
    requires LeadTo(states, a + b, x)
    ensures LeadTo(states, a, x) && LeadTo(states, b, x)
  {
    forall k | 0 <= k < |a| ensures a[k] < |states| && states[a[k]].out == x {
      assert (a + b)[k] == a[k];
    }
    forall k | 0 <= k < |b| ensures b[k] < |states| && states[b[k]].out == x {
      assert (a + b)[|a| + k] == b[k];
    }
  }

  lemma {:induction false} AlternativeIsWord(m: Nfa, l: Re, r: Re, lo: nat, x: int, w: Word, f: nat) returns (i: int)
    requires Built(m, Alt(l, r), lo) && LeadTo(m.states, Ends(Alt(l, r), lo), x) && x != INVALID
    requires Acc(m, lo + Size(l) + Size(r), w, f)
    ensures f > 0 && Cut(w, i) && In(Alt(l, r), w[..i]) && Acc(m, x, w[i..], f - 1)
    decreases Size(l) + Size(r) + 1, f, 0
  {
    var mid := lo + Size(l);
    LeadPrefix(m.states, Ends(l, lo), Ends(r, mid), x);
    if Acc(m, Start(l, lo), w, f - 1) {
      i := AcceptedIsWord(m, l, lo, x, w, f - 1);
    } else {
      i := AcceptedIsWord(m, r, mid, x, w, f - 1);
    }
    AccMore(m, x, w[i..], f - 2, f - 1);
  }

  // The loop of a repetition: a split between its body, whose ends lead back, and the way out.
  predicate Loop(m: Nfa, b: Re, lo: nat) {
    && Built(m, b, lo) && lo + Size(b) < |m.states|
    && m.states[lo + Size(b)].out1 == Start(b, lo) && LeadTo(m.states, Ends(b, lo), lo + Size(b))
  }

  lemma {:induction false} LoopIsWord(m: Nfa, b: Re, lo: nat, x: int, w: Word, f: nat) returns (i: int)
    requires Loop(m, b, lo) && m.states[lo + Size(b)].out == x != INVALID && Acc(m, lo + Size(b), w, f)
    ensures f > 0 && Cut(w, i) && Many(b, w[..i]) && Acc(m, x, w[i..], f - 1)
    decreases Size(b) + 1, f, 0
  {
    var s := lo + Size(b);
    if Acc(m, x, w, f - 1) {
      i := 0;
      assert w[0..] == w && w[..0] == [];
    } else {
      var j := AcceptedIsWord(m, b, lo, s, w, f - 1);
      var h := LoopIsWord(m, b, lo, x, w[j..], f - 2);
      i := j + h;
      Slices(w, j, i);
      InMany(b, w[..j], w[j..][..h]);
      AccMore(m, x, w[i..], f - 3, f - 1);
    }
  }

  // A word of the language, then what is accepted where the ends lead, is accepted from the start.
  lemma {:induction false} WordIsAccepted(m: Nfa, re: Re, lo: nat, x: int, u: Word, v: Word)
    requires Built(m, re, lo) && LeadTo(m.states, Ends(re, lo), x) && x != INVALID
    requires In(re, u) && Accepts(m, x, v)
    ensures Accepts(m, Start(re, lo), u + v)
    decreases re, 2
  {
    match re
    case One(a) => CharacterIsAccepted(m, a, lo, x, u, v);
    case Cat(l, r) => SequenceIsAccepted(m, l, r, lo, x, u, v);
    case Alt(l, r) => AlternativeIsAccepted(m, l, r, lo, x, u, v);
    case Opt(b) => OptionIsAccepted(m, b, lo, x, u, v);
    case Star(b) =>
      LoopParts(m, re, b, lo, x);
      WordsAreAccepted(m, b, lo, x, u, v);
    case Plus(b) =>
      LoopParts(m, re, b, lo, x);
      RepetitionIsAccepted(m, b, lo, x, u, v);
  }

  lemma {:induction false} RepetitionIsAccepted(m: Nfa, b: Re, lo: nat, x: int, u: Word, v: Word)
    requires Loop(m, b, lo) && m.states[lo + Size(b)].out == x != INVALID && In(Plus(b), u) && Accepts(m, x, v)
    ensures Accepts(m, Start(b, lo), u + v)
    decreases b, 4
  {
    var i :| Cut(u, i) && In(b, u[..i]) && Many(b, u[i..]);
    hide Built, LeadTo, Start, In, Many;
    WordsAreAccepted(m, b, lo, x, u[i..], v);
    WordIsAccepted(m, b, lo, lo + Size(b), u[..i], u[i..] + v);
    Rejoined(u, v, i);
  }

  lemma {:induction false} CharacterIsAccepted(m: Nfa, a: Atom, lo: nat, x: int, u: Word, v: Word)
    requires Built(m, One(a), lo) && LeadTo(m.states, [lo], x) && x != INVALID && In(One(a), u) && Accepts(m, x, v)
    ensures Accepts(m, lo, u + v)
  {
    assert m.states[[lo][0]].out == x && (u + v)[0] == u[0] && (u + v)[1..] == v;
    AtomTakes(m, lo, a, u[0]);
    AcceptsStep(m, lo, u + v);
  }

  lemma {:induction false} SequenceIsAccepted(m: Nfa, l: Re, r: Re, lo: nat, x: int, u: Word, v: Word)
    requires Built(m, Cat(l, r), lo) && LeadTo(m.states, Ends(Cat(l, r), lo), x) && x != INVALID
    requires In(Cat(l, r), u) && Accepts(m, x, v)
    ensures Accepts(m, Start(l, lo), u + v)
    decreases Cat(l, r), 1
  {
    hide Built, LeadTo, Ends, Start, In;
    SequenceParts(m, l, r, lo, x);
    var i := SequenceSplits(l, r, u);
    WordIsAccepted(m, r, lo + Size(l), x, u[i..], v);
    WordIsAccepted(m, l, lo, Start(r, lo + Size(l)), u[..i], u[i..] + v);
    Rejoined(u, v, i);
  }

  lemma {:induction false} SequenceSplits(l: Re, r: Re, u: Word) returns (i: nat)
    requires In(Cat(l, r), u)
    ensures i <= |u| && In(l, u[..i]) && In(r, u[i..])
  {
    i :| Cut(u, i) && In(l, u[..i]) && In(r, u[i..]);
  }

  lemma Rejoined(u: Word, v: Word, i: nat)
    requires i <= |u|
    ensures u[..i] + (u[i..] + v) == u + v
  {
  }

  lemma {:induction false} AlternativeIsAccepted(m: Nfa, l: Re, r: Re, lo: nat, x: int, u: Word, v: Word)
    requires Built(m, Alt(l, r), lo) && LeadTo(m.states, Ends(Alt(l, r), lo), x) && x != INVALID
    requires In(Alt(l, r), u) && Accepts(m, x, v)
    ensures Accepts(m, lo + Size(l) + Size(r), u + v)
    decreases Alt(l, r), 1
  {
    LeadPrefix(m.states, Ends(l, lo), Ends(r, lo + Size(l)), x);
    if In(l, u) {
      WordIsAccepted(m, l, lo, x, u, v);
    } else {
      WordIsAccepted(m, r, lo + Size(l), x, u, v);
    }
    AcceptsSplit(m, lo + Size(l) + Size(r), u + v);
  }

  lemma {:induction false} OptionIsAccepted(m: Nfa, b: Re, lo: nat, x: int, u: Word, v: Word)
    requires Built(m, Opt(b), lo) && LeadTo(m.states, Ends(Opt(b), lo), x) && x != INVALID
    requires In(Opt(b), u) && Accepts(m, x, v)
    ensures Accepts(m, lo + Size(b), u + v)
    decreases Opt(b), 1
  {
    OptionParts(m, b, lo, x);
    AcceptsSplit(m, lo + Size(b), u + v);
    if u == [] {
      assert u + v == v;
    } else {
      WordIsAccepted(m, b, lo, x, u, v);
    }
  }

  lemma {:induction false} WordsAreAccepted(m: Nfa, b: Re, lo: nat, x: int, u: Word, v: Word)
    requires Loop(m, b, lo) && m.states[lo + Size(b)].out == x != INVALID && Many(b, u) && Accepts(m, x, v)
    ensures Accepts(m, lo + Size(b), u + v)
    decreases b, 3, |u|
  {
    AcceptsSplit(m, lo + Size(b), u + v);
    if u == [] {
      assert u + v == v;
    } else {
      var i :| Cut(u, i) && i > 0 && In(b, u[..i]) && Many(b, u[i..]);
      WordsAreAccepted(m, b, lo, x, u[i..], v);
      WordIsAccepted(m, b, lo, lo + Size(b), u[..i], u[i..] + v);
      assert u[..i] + (u[i..] + v) == u + v;
    }
  }

  // A finished automaton: the states of the expression, then the matching state.
  predicate Compiled(m: Nfa, re: Re) {
    && Built(m, re, 0) && LeadTo(m.states, Ends(re, 0), Size(re))
    && |m.states| == Size(re) + 1 && m.states[Size(re)] == MATCHING
  }

  // Compilation preserves meaning: the automaton accepts exactly the words of the language.
  lemma {:induction false} CompiledAccepts(m: Nfa, re: Re, w: Word)
    requires Compiled(m, re)
    ensures Accepts(m, Start(re, 0), w) <==> In(re, w)
  {
    var x := Size(re);
    if f: nat :| Acc(m, Start(re, 0), w, f) {
      var i := AcceptedIsWord(m, re, 0, x, w, f);
      assert w[..i] == w;
    }
    if In(re, w) {
      AcceptsEnd(m, x, []);
      WordIsAccepted(m, re, 0, x, w, []);
      assert w + [] == w;
    }
  }
}
