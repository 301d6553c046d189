/** What the steps of the compiler do to the states: fragments whose ends are linked, patched,
    appended and cloned. */
module RegexBuild {
  import opened RegexLanguage
  import opened RegexNfa
  import opened RegexSyntax

  // An operand: where it starts, the first of its linked ends, and its lowest state.
  datatype Frag = Frag(start: int, out: int, minIndex: int)

  // While a fragment is open, the `out` of each end leads to the next end.
  predicate Linked(states: seq<State>, e: seq<nat>) {
    e != [] && forall k :: 0 <= k < |e| ==> e[k] < |states| && states[e[k]].out == NextEnd(e, k)
  }

  function NextEnd(e: seq<nat>, k: nat): int
    requires k < |e|
  {
    if k + 1 < |e| then e[k + 1] else INVALID
  }

  // A fact that is passed on as a whole, rather than as everything that it says.
  datatype Fact = Fact(holds: bool)

  predicate OpenAt(m: Nfa, re: Re, lo: int, f: Frag) {
    0 <= lo &&
    Fact(Built(m, re, lo) && Linked(m.states, Ends(re, lo)) && f == Frag(Start(re, lo), Ends(re, lo)[0], lo)).holds
  }

  // The operands lie one after the other, the topmost last, and take all states below `hi`.
  predicate Laid(m: Nfa, trees: List<Re>, operands: List<Frag>, hi: int)
    decreases trees
  {
    match trees
    case Nil => operands.Nil? && hi == 0
    case Cons(re, rest) =>
      operands.Cons? &&
      Fact(OpenAt(m, re, hi - Size(re), operands.head) && Laid(m, rest, operands.tail, hi - Size(re))).holds
  }

  // The state has changed at most where it leads, and that only if it is one of the ends `e`.
  predicate KeptState(m: Nfa, t: Nfa, e: seq<nat>, i: int) {
    0 <= i < |m.states| && i < |t.states| ==>
      t.states[i] == m.states[i].(out := t.states[i].out) && (i in e || t.states[i].out == m.states[i].out)
  }

  predicate Kept(m: Nfa, t: Nfa, lo: nat, hi: nat, e: seq<nat>) {
    && hi <= |m.states| && hi <= |t.states| && m.ranges <= t.ranges
    && forall i :: lo <= i < hi ==> KeptState(m, t, e, i)
  }

  lemma KeptPart(m: Nfa, t: Nfa, lo: nat, hi: nat, e: seq<nat>, lo1: nat, hi1: nat, e1: seq<nat>)
    requires Kept(m, t, lo, hi, e) && lo <= lo1 <= hi1 <= hi
    requires forall i :: lo1 <= i < hi1 && i in e ==> i in e1
    ensures Kept(m, t, lo1, hi1, e1)
  {
    forall i | lo1 <= i < hi1 ensures KeptState(m, t, e1, i) {
      assert KeptState(m, t, e, i);
    }
  }

  predicate Inside(e: seq<nat>, lo: nat, hi: nat) {
    forall x :: x in e ==> lo <= x < hi
  }

  lemma {:induction false} EndsInside(re: Re, lo: nat)
    ensures Inside(Ends(re, lo), lo, lo + Size(re))
  {
    EndsOrdered(re, lo);
  }

  // An expression stays built when only its ends change where they lead.
  lemma {:induction false} BuiltKept(m: Nfa, t: Nfa, re: Re, lo: nat)
    requires Built(m, re, lo) && Kept(m, t, lo, lo + Size(re), Ends(re, lo))
    ensures Built(t, re, lo)
    decreases Size(re), 1
  {
    match re
    case One(a) =>
      assert KeptState(m, t, Ends(re, lo), lo);
      AtomKept(m, t, lo, a);
    case Cat(l, r) => SequenceKept(m, t, l, r, lo);
    case Alt(l, r) => AlternativeKept(m, t, l, r, lo);
    case Opt(b) => OptionKept(m, t, b, lo);
    case Star(b) => LoopKept(m, t, b, lo);
    case Plus(b) => LoopKept(m, t, b, lo);
  }

  lemma {:induction false} SequenceKept(m: Nfa, t: Nfa, l: Re, r: Re, lo: nat)
    requires Built(m, Cat(l, r), lo) && Kept(m, t, lo, lo + Size(l) + Size(r), Ends(r, lo + Size(l)))
    ensures Built(t, Cat(l, r), lo)
    decreases Size(l) + Size(r), 0
  {
    var mid := lo + Size(l);
    var hi, e := mid + Size(r), Ends(r, mid);
    EndsInside(l, lo);
    EndsInside(r, mid);
    KeptPart(m, t, lo, hi, e, lo, mid, Ends(l, lo));
    KeptPart(m, t, lo, hi, e, mid, hi, e);
    BuiltKept(m, t, l, lo);
    BuiltKept(m, t, r, mid);
    forall k | 0 <= k < |Ends(l, lo)|
      ensures Ends(l, lo)[k] < |t.states| && t.states[Ends(l, lo)[k]].out == Start(r, mid) {
      assert Ends(l, lo)[k] in Ends(l, lo) && KeptState(m, t, e, Ends(l, lo)[k]);
    }
  }

  lemma {:induction false} AlternativeKept(m: Nfa, t: Nfa, l: Re, r: Re, lo: nat)
    requires Built(m, Alt(l, r), lo) && Kept(m, t, lo, lo + Size(l) + Size(r) + 1, Ends(l, lo) + Ends(r, lo + Size(l)))
    ensures Built(t, Alt(l, r), lo)
    decreases Size(l) + Size(r) + 1, 0
  {
    var mid := lo + Size(l);
    var hi, e := mid + Size(r), Ends(l, lo) + Ends(r, mid);
    EndsInside(l, lo);
    EndsInside(r, mid);
    KeptPart(m, t, lo, hi + 1, e, lo, mid, Ends(l, lo));
    KeptPart(m, t, lo, hi + 1, e, mid, hi, Ends(r, mid));
    BuiltKept(m, t, l, lo);
    BuiltKept(m, t, r, mid);
    assert hi !in e && KeptState(m, t, e, hi);
  }

  lemma {:induction false} OptionKept(m: Nfa, t: Nfa, b: Re, lo: nat)
    requires Built(m, Opt(b), lo) && Kept(m, t, lo, lo + Size(b) + 1, Ends(b, lo) + [lo + Size(b)])
    ensures Built(t, Opt(b), lo)
    decreases Size(b) + 1, 0
  {
    var e := Ends(b, lo) + [lo + Size(b)];
    KeptPart(m, t, lo, lo + Size(b) + 1, e, lo, lo + Size(b), Ends(b, lo));
    BuiltKept(m, t, b, lo);
    assert KeptState(m, t, e, lo + Size(b));
  }

  lemma {:induction false} LoopKept(m: Nfa, t: Nfa, b: Re, lo: nat)
    requires Loop(m, b, lo) && Kept(m, t, lo, lo + Size(b) + 1, [lo + Size(b)])
    ensures Loop(t, b, lo)
    decreases Size(b) + 1, 0
  {
    var e: seq<nat> := [lo + Size(b)];
    EndsInside(b, lo);
    KeptPart(m, t, lo, lo + Size(b) + 1, e, lo, lo + Size(b), Ends(b, lo));
    BuiltKept(m, t, b, lo);
    assert KeptState(m, t, e, lo + Size(b));
    forall k | 0 <= k < |Ends(b, lo)|
      ensures Ends(b, lo)[k] < |t.states| && t.states[Ends(b, lo)[k]].out == lo + Size(b) {
      assert Ends(b, lo)[k] in Ends(b, lo) && KeptState(m, t, e, Ends(b, lo)[k]);
    }
  }

  lemma AtomKept(m: Nfa, t: Nfa, i: nat, a: Atom)
    requires i < |m.states| && AtomAt(m, i, a) && m.ranges <= t.ranges
    requires i < |t.states| && t.states[i] == m.states[i].(out := t.states[i].out)
    ensures AtomAt(t, i, a)
  {
    if a.OneOf? {
      ClassKept(m.ranges, t.ranges, m.states[i].rangeStart, a.k);
    }
  }

  lemma ClassKept(a: seq<Range>, b: seq<Range>, i: int, k: Class)
    requires ClassAt(a, i, k) && a <= b
    ensures ClassAt(b, i, k)
  {
    forall j | 0 <= j < |k.spans| ensures b[i + j] == RangeOf(k, i, j) {
      assert a[i + j] == b[i + j];
    }
  }

  // The same states from `lo` to `hi`.
  predicate SameState(m: Nfa, t: Nfa, i: int) {
    0 <= i < |m.states| && i < |t.states| ==> t.states[i] == m.states[i]
  }

  predicate Same(m: Nfa, t: Nfa, lo: int, hi: int) {
    && hi <= |m.states| && hi <= |t.states| && m.ranges <= t.ranges
    && forall i :: lo <= i < hi ==> SameState(m, t, i)
  }

  lemma SameIsKept(m: Nfa, t: Nfa, lo: nat, hi: nat, e: seq<nat>)
    requires Same(m, t, lo, hi)
    ensures Kept(m, t, lo, hi, e)
  {
    forall i | lo <= i < hi ensures KeptState(m, t, e, i) {
      assert SameState(m, t, i);
    }
  }

  lemma LinkedKept(m: Nfa, t: Nfa, lo: nat, hi: nat, e: seq<nat>)
    requires Linked(m.states, e) && Same(m, t, lo, hi) && Inside(e, lo, hi)
    ensures Linked(t.states, e)
  {
    forall k | 0 <= k < |e| ensures e[k] < |t.states| && t.states[e[k]].out == NextEnd(e, k) {
      assert e[k] in e && SameState(m, t, e[k]);
    }
  }

  lemma {:induction false} OpenKept(m: Nfa, t: Nfa, re: Re, lo: int, f: Frag)
    requires OpenAt(m, re, lo, f) && Same(m, t, lo, lo + Size(re))
    ensures OpenAt(t, re, lo, f)
  {
    EndsInside(re, lo);
    SameIsKept(m, t, lo, lo + Size(re), Ends(re, lo));
    BuiltKept(m, t, re, lo);
    LinkedKept(m, t, lo, lo + Size(re), Ends(re, lo));
  }

  lemma {:induction false} SamePart(m: Nfa, t: Nfa, lo: int, hi: int, a: int, b: int)
    requires Same(m, t, lo, hi) && lo <= a && b <= hi
    ensures Same(m, t, a, b)
  {
  }

  lemma {:induction false} LaidKept(m: Nfa, t: Nfa, trees: List<Re>, operands: List<Frag>, hi: int)
    requires Laid(m, trees, operands, hi) && Same(m, t, 0, hi)
    ensures Laid(t, trees, operands, hi)
    decreases trees
  {
    if trees.Cons? {
      var lo := hi - Size(trees.head);
      SamePart(m, t, 0, hi, lo, hi);
      SamePart(m, t, 0, hi, 0, lo);
      OpenKept(m, t, trees.head, lo, operands.head);
      LaidKept(m, t, trees.tail, operands.tail, lo);
    }
  }

  // Patching

  // An open fragment whose ends have been patched, in states that may have grown.
  predicate PatchedAt(m: Nfa, t: Nfa, re: Re, lo: nat, x: int) {
    && m.ranges <= t.ranges && |m.states| <= |t.states|
    && forall i :: 0 <= i < |m.states| ==> PatchedState(m.states, t.states, Ends(re, lo), x, i)
  }

  predicate PatchedState(a: seq<State>, b: seq<State>, e: seq<nat>, x: int, i: int) {
    0 <= i < |a| && i < |b| ==> b[i] == if i in e then a[i].(out := x) else a[i]
  }

  lemma {:induction false} BuiltAfterPatch(m: Nfa, t: Nfa, re: Re, lo: nat, f: Frag, x: int)
    requires OpenAt(m, re, lo, f) && PatchedAt(m, t, re, lo, x)
    ensures Built(t, re, lo) && LeadTo(t.states, Ends(re, lo), x)
  {
    var e := Ends(re, lo);
    forall i | lo <= i < lo + Size(re) ensures KeptState(m, t, e, i) {
      assert PatchedState(m.states, t.states, e, x, i);
    }
    BuiltKept(m, t, re, lo);
    forall k | 0 <= k < |e| ensures e[k] < |t.states| && t.states[e[k]].out == x {
      assert e[k] in e && PatchedState(m.states, t.states, e, x, e[k]);
    }
  }

  predicate Rising(e: seq<nat>) {
    forall j, k :: 0 <= j < k < |e| ==> e[j] < e[k]
  }

  // The first `k` states of a list have been patched.
  predicate PatchedUpTo(a: seq<State>, b: seq<State>, e: seq<nat>, k: nat, x: int)
    requires k <= |e|
  {
    var done := e[..k];
    |a| == |b| && forall i :: 0 <= i < |a| ==> PatchedState(a, b, done, x, i)
  }

  lemma PatchStep(a: seq<State>, b: seq<State>, c: seq<State>, e: seq<nat>, k: nat, x: int)
    requires k < |e| && e[k] < |a| && Rising(e) && PatchedUpTo(a, b, e, k, x)
    requires c == b[e[k] := b[e[k]].(out := x)]
    ensures b[e[k]] == a[e[k]] && PatchedUpTo(a, c, e, k + 1, x)
  {
    var before, after := e[..k], e[..k + 1];
    assert after == before + [e[k]] && e[k] !in before;
    assert PatchedState(a, b, before, x, e[k]);
    forall i | 0 <= i < |a| ensures PatchedState(a, c, after, x, i) {
      assert PatchedState(a, b, before, x, i);
    }
  }

  lemma PatchedNone(a: seq<State>, e: seq<nat>, x: int)
    ensures PatchedUpTo(a, a, e, 0, x)
  {
  }

  lemma PatchedAll(a: seq<State>, b: seq<State>, e: seq<nat>, x: int)
    requires PatchedUpTo(a, b, e, |e|, x)
    ensures |a| == |b| && forall i :: 0 <= i < |a| ==> PatchedState(a, b, e, x, i)
  {
    assert e[..|e|] == e;
  }

  // Nothing changes outside the fragment.
  lemma {:induction false} SameAfterPatch(m: Nfa, t: Nfa, re: Re, lo: nat, x: int, a: nat, b: nat)
    requires PatchedAt(m, t, re, lo, x) && b <= |m.states| && (b <= lo || lo + Size(re) <= a)
    ensures Same(m, t, a, b)
  {
    EndsInside(re, lo);
    forall i | a <= i < b ensures SameState(m, t, i) {
      assert PatchedState(m.states, t.states, Ends(re, lo), x, i);
    }
  }

  lemma {:induction false} OpenAfterPatch(m: Nfa, t: Nfa, l: Re, r: Re, lo: nat, g: Frag, x: int)
    requires OpenAt(m, r, lo + Size(l), g) && PatchedAt(m, t, l, lo, x)
    ensures OpenAt(t, r, lo + Size(l), g)
  {
    var mid := lo + Size(l);
    SameAfterPatch(m, t, l, lo, x, mid, mid + Size(r));
    OpenKept(m, t, r, mid, g);
  }

  // The ends of the first operand are patched to the start of the second.
  lemma {:induction false} Concatenated(m: Nfa, t: Nfa, l: Re, r: Re, lo: nat, f: Frag, g: Frag)
    requires OpenAt(m, l, lo, f) && OpenAt(m, r, lo + Size(l), g) && PatchedAt(m, t, l, lo, g.start)
    ensures OpenAt(t, Cat(l, r), lo, Frag(f.start, g.out, lo))
  {
    hide Linked, LeadTo;
    BuiltAfterPatch(m, t, l, lo, f, g.start);
    OpenAfterPatch(m, t, l, r, lo, g, g.start);
  }

  // A new split after a body whose ends are patched to it.
  lemma {:induction false} Repeated(m: Nfa, t: Nfa, b: Re, lo: nat, f: Frag)
    requires OpenAt(m, b, lo, f) && |m.states| == lo + Size(b) && PatchedAt(m, t, b, lo, |m.states|)
    requires |t.states| == |m.states| + 1 && t.states[|m.states|] == State(INVALID, f.start, INVALID, 0)
    ensures OpenAt(t, Star(b), lo, Frag(|m.states|, |m.states|, lo))
    ensures OpenAt(t, Plus(b), lo, Frag(f.start, |m.states|, lo))
  {
    BuiltAfterPatch(m, t, b, lo, f, |m.states|);
  }

  function LastOf(e: seq<nat>): (x: nat)
    requires e != []
    ensures x in e
  {
    e[|e| - 1]
  }

  // The last of the linked states leads to `x`.
  predicate ExtendedAt(m: Nfa, t: Nfa, e: seq<nat>, x: int)
    requires e != []
  {
    && m.ranges <= t.ranges && |m.states| <= |t.states|
    && forall i :: 0 <= i < |m.states| ==> ExtendedState(m.states, t.states, LastOf(e), x, i)
  }

  predicate ExtendedState(a: seq<State>, b: seq<State>, last: nat, x: int, i: int) {
    0 <= i < |a| && i < |b| ==> b[i] == if i == last then a[i].(out := x) else a[i]
  }

  // Two lists of ends become one.
  lemma LinkedAppend(m: Nfa, t: Nfa, a: seq<nat>, b: seq<nat>, x: int)
    requires Linked(m.states, a) && Linked(t.states, b) && x == b[0] && ExtendedAt(m, t, a, x)
    requires forall j, k :: 0 <= j < k < |a| ==> a[j] < a[k]
    ensures Linked(t.states, a + b)
  {
    hide NextEnd;
    var e := a + b;
    forall k | 0 <= k < |e| ensures e[k] < |t.states| && t.states[e[k]].out == NextEnd(e, k) {
      AppendedEnd(a, b, k);
      if k < |a| {
        assert ExtendedState(m.states, t.states, LastOf(a), x, a[k]);
        assert k < |a| - 1 ==> a[k] < a[|a| - 1];
      } else {
        var j := k - |a|;
        assert b[j] < |t.states| && t.states[b[j]].out == NextEnd(b, j);
      }
    }
  }

  lemma AppendedEnd(a: seq<nat>, b: seq<nat>, k: nat)
    requires a != [] && b != [] && k < |a + b|
    ensures (a + b)[k] == if k < |a| then a[k] else b[k - |a|]
    ensures NextEnd(a + b, k) ==
      if k < |a| - 1 then NextEnd(a, k) else if k == |a| - 1 then b[0] else NextEnd(b, k - |a|)
  {
  }

  lemma {:induction false} BuiltAfterAppend(m: Nfa, t: Nfa, re: Re, lo: nat, f: Frag, x: int)
    requires OpenAt(m, re, lo, f) && ExtendedAt(m, t, Ends(re, lo), x)
    ensures Built(t, re, lo)
  {
    var e := Ends(re, lo);
    forall i | lo <= i < lo + Size(re) ensures KeptState(m, t, e, i) {
      assert ExtendedState(m.states, t.states, LastOf(e), x, i);
    }
    BuiltKept(m, t, re, lo);
  }

  lemma {:induction false} SameAfterAppend(m: Nfa, t: Nfa, re: Re, lo: nat, x: int, a: nat, b: nat)
    requires ExtendedAt(m, t, Ends(re, lo), x) && b <= |m.states| && (b <= lo || lo + Size(re) <= a)
    ensures Same(m, t, a, b)
  {
    var e := Ends(re, lo);
    EndsInside(re, lo);
    forall i | a <= i < b ensures SameState(m, t, i) {
      assert ExtendedState(m.states, t.states, LastOf(e), x, i);
    }
  }

  lemma {:induction false} AlternativeIsOpen(t: Nfa, l: Re, r: Re, lo: nat, hi: nat)
    requires Built(t, l, lo) && Built(t, r, lo + Size(l)) && hi == lo + Size(l) + Size(r) < |t.states|
    requires t.states[hi].out == Start(l, lo) && t.states[hi].out1 == Start(r, lo + Size(l))
    requires Linked(t.states, Ends(l, lo) + Ends(r, lo + Size(l)))
    ensures OpenAt(t, Alt(l, r), lo, Frag(hi, Ends(l, lo)[0], lo))
  {
    assert Ends(Alt(l, r), lo) == Ends(l, lo) + Ends(r, lo + Size(l));
  }

  lemma {:induction false} OpenAfterAppend(m: Nfa, t: Nfa, l: Re, r: Re, lo: nat, g: Frag, x: int)
    requires OpenAt(m, r, lo + Size(l), g) && ExtendedAt(m, t, Ends(l, lo), x)
    ensures OpenAt(t, r, lo + Size(l), g)
  {
    var mid := lo + Size(l);
    SameAfterAppend(m, t, l, lo, x, mid, mid + Size(r));
    OpenKept(m, t, r, mid, g);
  }

  lemma {:induction false} Alternated(m: Nfa, t: Nfa, l: Re, r: Re, lo: nat, f: Frag, g: Frag)
    requires OpenAt(m, l, lo, f) && OpenAt(m, r, lo + Size(l), g) && |m.states| == lo + Size(l) + Size(r)
    requires ExtendedAt(m, t, Ends(l, lo), g.out)
    requires |t.states| == |m.states| + 1 && t.states[|m.states|] == State(f.start, g.start, INVALID, 0)
    ensures OpenAt(t, Alt(l, r), lo, Frag(|m.states|, f.out, lo))
  {
    hide Built, Ends, Start;
    EndsOrdered(l, lo);
    BuiltAfterAppend(m, t, l, lo, f, g.out);
    OpenAfterAppend(m, t, l, r, lo, g, g.out);
    LinkedAppend(m, t, Ends(l, lo), Ends(r, lo + Size(l)), g.out);
    AlternativeIsOpen(t, l, r, lo, |m.states|);
  }

  lemma LinkedOne(states: seq<State>, i: nat)
    requires i < |states| && states[i].out == INVALID
    ensures Linked(states, [i])
  {
  }

  lemma {:induction false} OptionIsOpen(t: Nfa, b: Re, lo: nat, hi: nat)
    requires Built(t, b, lo) && hi == lo + Size(b) < |t.states| && t.states[hi].out1 == Start(b, lo)
    requires Linked(t.states, Ends(b, lo) + [hi])
    ensures OpenAt(t, Opt(b), lo, Frag(hi, Ends(b, lo)[0], lo))
  {
    assert Ends(Opt(b), lo) == Ends(b, lo) + [hi];
  }

  lemma {:induction false} Optioned(m: Nfa, t: Nfa, b: Re, lo: nat, f: Frag)
    requires OpenAt(m, b, lo, f) && |m.states| == lo + Size(b) && ExtendedAt(m, t, Ends(b, lo), |m.states|)
    requires |t.states| == |m.states| + 1 && t.states[|m.states|] == State(INVALID, f.start, INVALID, 0)
    ensures OpenAt(t, Opt(b), lo, Frag(|m.states|, f.out, lo))
  {
    hide Built, Ends, Start;
    EndsOrdered(b, lo);
    BuiltAfterAppend(m, t, b, lo, f, |m.states|);
    LinkedOne(t.states, |m.states|);
    LinkedAppend(m, t, Ends(b, lo), [|m.states|], |m.states|);
    OptionIsOpen(t, b, lo, |m.states|);
  }

  // Cloning

  function Relocated(s: State, n: nat): State {
    s.(out := if s.out == INVALID then INVALID else s.out + n,
      out1 := if s.out1 == INVALID then INVALID else s.out1 + n)
  }

  // The states from `lo` to `hi`, again `n` states further on.
  predicate ClonedAt(m: Nfa, t: Nfa, lo: nat, hi: nat, n: nat) {
    && hi <= |m.states| && hi + n <= |t.states| && m.ranges <= t.ranges
    && forall i :: lo <= i < hi ==> ClonedState(m.states, t.states, n, i)
  }

  predicate ClonedState(a: seq<State>, b: seq<State>, n: nat, i: int) {
    0 <= i < |a| && i + n < |b| ==> b[i + n] == Relocated(a[i], n)
  }

  function Shifted(e: seq<nat>, n: nat): (r: seq<nat>)
    ensures |r| == |e|
  {
    seq(|e|, k requires 0 <= k < |e| => e[k] + n)
  }

  lemma {:induction false} StartShifted(re: Re, lo: nat, n: nat)
    ensures Start(re, lo + n) == Start(re, lo) + n
  {
    match re
    case Cat(l, _) => StartShifted(l, lo, n);
    case Plus(b) => StartShifted(b, lo, n);
    case One(_) =>
    case Alt(_, _) =>
    case Opt(_) =>
    case Star(_) =>
  }

  lemma {:induction false} EndsShifted(re: Re, lo: nat, n: nat)
    ensures Ends(re, lo + n) == Shifted(Ends(re, lo), n)
  {
    match re
    case One(_) =>
    case Cat(l, r) => EndsShifted(r, lo + Size(l), n);
    case Alt(l, r) => EndsShifted(l, lo, n); EndsShifted(r, lo + Size(l), n);
    case Opt(b) => EndsShifted(b, lo, n);
    case Star(_) =>
    case Plus(_) =>
  }

  lemma {:induction false} LeadToShifted(m: Nfa, t: Nfa, lo: nat, hi: nat, n: nat, e: seq<nat>, x: nat)
    requires ClonedAt(m, t, lo, hi, n) && Inside(e, lo, hi) && LeadTo(m.states, e, x)
    ensures LeadTo(t.states, Shifted(e, n), x + n)
  {
    forall k | 0 <= k < |e| ensures Shifted(e, n)[k] < |t.states| && t.states[Shifted(e, n)[k]].out == x + n {
      assert e[k] in e && ClonedState(m.states, t.states, n, e[k]);
    }
  }

  lemma {:induction false} BuiltShifted(m: Nfa, t: Nfa, re: Re, lo: nat, n: nat)
    requires Built(m, re, lo) && ClonedAt(m, t, lo, lo + Size(re), n)
    ensures Built(t, re, lo + n)
    decreases Size(re), 1
  {
    match re
    case One(a) =>
      assert ClonedState(m.states, t.states, n, lo);
      if a.OneOf? {
        ClassKept(m.ranges, t.ranges, m.states[lo].rangeStart, a.k);
      }
    case Cat(l, r) => SequenceShifted(m, t, l, r, lo, n);
    case Alt(l, r) => AlternativeShifted(m, t, l, r, lo, n);
    case Opt(b) => OptionShifted(m, t, b, lo, n);
    case Star(b) => LoopShifted(m, t, b, lo, n);
    case Plus(b) => LoopShifted(m, t, b, lo, n);
  }

  lemma {:induction false} SequenceShifted(m: Nfa, t: Nfa, l: Re, r: Re, lo: nat, n: nat)
    requires Built(m, Cat(l, r), lo) && ClonedAt(m, t, lo, lo + Size(l) + Size(r), n)
    ensures Built(t, Cat(l, r), lo + n)
    decreases Size(l) + Size(r), 0
  {
    var mid := lo + Size(l);
    BuiltShifted(m, t, l, lo, n);
    BuiltShifted(m, t, r, mid, n);
    EndsInside(l, lo);
    LeadToShifted(m, t, lo, mid, n, Ends(l, lo), Start(r, mid));
    EndsShifted(l, lo, n);
    StartShifted(r, mid, n);
  }

  lemma {:induction false} AlternativeShifted(m: Nfa, t: Nfa, l: Re, r: Re, lo: nat, n: nat)
    requires Built(m, Alt(l, r), lo) && ClonedAt(m, t, lo, lo + Size(l) + Size(r) + 1, n)
    ensures Built(t, Alt(l, r), lo + n)
    decreases Size(l) + Size(r) + 1, 0
  {
    hide LeadTo, Ends, Start;
    var mid := lo + Size(l);
    BuiltShifted(m, t, l, lo, n);
    BuiltShifted(m, t, r, mid, n);
    StartShifted(l, lo, n);
    StartShifted(r, mid, n);
    assert ClonedState(m.states, t.states, n, mid + Size(r));
  }

  lemma {:induction false} OptionShifted(m: Nfa, t: Nfa, b: Re, lo: nat, n: nat)
    requires Built(m, Opt(b), lo) && ClonedAt(m, t, lo, lo + Size(b) + 1, n)
    ensures Built(t, Opt(b), lo + n)
    decreases Size(b) + 1, 0
  {
    hide Ends, Start;
    BuiltShifted(m, t, b, lo, n);
    StartShifted(b, lo, n);
    assert ClonedState(m.states, t.states, n, lo + Size(b));
  }

  lemma {:induction false} LoopShifted(m: Nfa, t: Nfa, b: Re, lo: nat, n: nat)
    requires Loop(m, b, lo) && ClonedAt(m, t, lo, lo + Size(b) + 1, n)
    ensures Loop(t, b, lo + n)
    decreases Size(b) + 1, 0
  {
    hide Start;
    BuiltShifted(m, t, b, lo, n);
    StartShifted(b, lo, n);
    EndsInside(b, lo);
    LeadToShifted(m, t, lo, lo + Size(b), n, Ends(b, lo), lo + Size(b));
    EndsShifted(b, lo, n);
    assert ClonedState(m.states, t.states, n, lo + Size(b));
  }

  lemma LinkedShifted(m: Nfa, t: Nfa, lo: nat, hi: nat, n: nat, e: seq<nat>)
    requires ClonedAt(m, t, lo, hi, n) && Inside(e, lo, hi) && Linked(m.states, e)
    ensures Linked(t.states, Shifted(e, n))
  {
    var s := Shifted(e, n);
    forall k | 0 <= k < |s| ensures s[k] < |t.states| && t.states[s[k]].out == NextEnd(s, k) {
      assert e[k] in e && ClonedState(m.states, t.states, n, e[k]);
    }
  }

  lemma {:induction false} OpenIs(m: Nfa, re: Re, lo: nat)
    requires Built(m, re, lo) && Linked(m.states, Ends(re, lo))
    ensures OpenAt(m, re, lo, Frag(Start(re, lo), Ends(re, lo)[0], lo))
  {
  }

  // The clone of an operand is the same operand further on.
  lemma {:induction false} Cloned(m: Nfa, t: Nfa, re: Re, lo: nat, hi: nat, f: Frag)
    requires OpenAt(m, re, lo, f) && hi == lo + Size(re) && ClonedAt(m, t, lo, hi, Size(re))
    ensures OpenAt(t, re, hi, Frag(f.start + Size(re), f.out + Size(re), hi))
  {
    hide OpenAt, Built, Ends, Start, Linked, ClonedAt;
    var n := Size(re);
    OpenFacts(m, re, lo, f);
    BuiltShifted(m, t, re, lo, n);
    StartShifted(re, lo, n);
    EndsShifted(re, lo, n);
    EndsInside(re, lo);
    LinkedShifted(m, t, lo, hi, n, Ends(re, lo));
    OpenIs(t, re, lo + n);
  }

  // What an operand tells about its expression.
  lemma {:induction false} OpenFacts(m: Nfa, re: Re, lo: int, f: Frag)
    requires OpenAt(m, re, lo, f)
    ensures Linked(m.states, Ends(re, lo)) && Rising(Ends(re, lo)) && Built(m, re, lo)
    ensures f.start == Start(re, lo) && f.out == Ends(re, lo)[0] && f.minIndex == lo
  {
    EndsOrdered(re, lo);
  }

  // A new state does not disturb the lists of ends, and is not disturbed by what happens to them.

  lemma LinkedAfterPush(states: seq<State>, s: State, e: seq<nat>)
    requires Linked(states, e)
    ensures Linked(states + [s], e)
  {
  }

  lemma PatchedAfterPush(m: Nfa, t: Nfa, s: State, re: Re, lo: nat, x: int)
    requires lo + Size(re) <= |m.states| && m.ranges == t.ranges && |t.states| == |m.states| + 1
    requires forall i :: 0 <= i < |t.states| ==> PatchedState(m.states + [s], t.states, Ends(re, lo), x, i)
    ensures PatchedAt(m, t, re, lo, x) && t.states[|m.states|] == s
  {
    EndsInside(re, lo);
    forall i | 0 <= i < |m.states| ensures PatchedState(m.states, t.states, Ends(re, lo), x, i) {
      assert PatchedState(m.states + [s], t.states, Ends(re, lo), x, i);
    }
    assert PatchedState(m.states + [s], t.states, Ends(re, lo), x, |m.states|);
  }

  lemma ExtendedAfterPush(m: Nfa, t: Nfa, s: State, re: Re, lo: nat, x: int)
    requires lo + Size(re) <= |m.states| && m.ranges == t.ranges && |t.states| == |m.states| + 1
    requires forall i :: 0 <= i < |t.states| ==> ExtendedState(m.states + [s], t.states, LastOf(Ends(re, lo)), x, i)
    ensures ExtendedAt(m, t, Ends(re, lo), x) && t.states[|m.states|] == s
  {
    var last := LastOf(Ends(re, lo));
    EndsInside(re, lo);
    forall i | 0 <= i < |m.states| ensures ExtendedState(m.states, t.states, last, x, i) {
      assert ExtendedState(m.states + [s], t.states, last, x, i);
    }
    assert ExtendedState(m.states + [s], t.states, last, x, |m.states|);
  }

  // The stack of operands

  // The topmost operand, and those below it.
  lemma {:induction false} LaidTop(m: Nfa, trees: List<Re>, operands: List<Frag>, hi: int)
    requires Laid(m, trees, operands, hi) && trees.Cons?
    ensures operands.Cons? && 0 <= hi - Size(trees.head) && hi <= |m.states|
    ensures OpenAt(m, trees.head, hi - Size(trees.head), operands.head)
    ensures Laid(m, trees.tail, operands.tail, hi - Size(trees.head))
  {
  }

  lemma {:induction false} LaidCons(m: Nfa, re: Re, rest: List<Re>, f: Frag, below: List<Frag>, lo: int)
    requires OpenAt(m, re, lo, f) && Laid(m, rest, below, lo)
    ensures Laid(m, Cons(re, rest), Cons(f, below), lo + Size(re))
  {
  }

  lemma {:induction false} BelowPatched(m: Nfa, t: Nfa, b: Re, rest: List<Re>, below: List<Frag>, lo: int, x: int)
    requires Laid(m, rest, below, lo) && 0 <= lo <= |m.states| && PatchedAt(m, t, b, lo, x)
    ensures Laid(t, rest, below, lo)
  {
    SameAfterPatch(m, t, b, lo, x, 0, lo);
    LaidKept(m, t, rest, below, lo);
  }

  lemma {:induction false} BelowExtended(m: Nfa, t: Nfa, b: Re, rest: List<Re>, below: List<Frag>, lo: int, x: int)
    requires Laid(m, rest, below, lo) && 0 <= lo <= |m.states| && ExtendedAt(m, t, Ends(b, lo), x)
    ensures Laid(t, rest, below, lo)
  {
    SameAfterAppend(m, t, b, lo, x, 0, lo);
    LaidKept(m, t, rest, below, lo);
  }

  lemma {:induction false} LaidConcatenated(m: Nfa, t: Nfa, l: Re, r: Re, rest: List<Re>, f: Frag, g: Frag,
      below: List<Frag>, lo: int)
    requires lo >= 0 && OpenAt(m, r, lo + Size(l), g) && OpenAt(m, l, lo, f) && Laid(m, rest, below, lo)
    requires lo + Size(Cat(l, r)) <= |m.states| && PatchedAt(m, t, l, lo, g.start)
    ensures Laid(t, Cons(Cat(l, r), rest), Cons(Frag(f.start, g.out, lo), below), lo + Size(Cat(l, r)))
  {
    hide OpenAt, Built, Ends, Start, Laid;
    Concatenated(m, t, l, r, lo, f, g);
    BelowPatched(m, t, l, rest, below, lo, g.start);
    LaidCons(t, Cat(l, r), rest, Frag(f.start, g.out, lo), below, lo);
  }

  lemma {:induction false} LaidAlternated(m: Nfa, t: Nfa, l: Re, r: Re, rest: List<Re>, f: Frag, g: Frag,
      below: List<Frag>, lo: int)
    requires lo >= 0 && OpenAt(m, r, lo + Size(l), g) && OpenAt(m, l, lo, f) && Laid(m, rest, below, lo)
    requires |m.states| == lo + Size(l) + Size(r) && ExtendedAt(m, t, Ends(l, lo), g.out)
    requires |t.states| == |m.states| + 1 && t.states[|m.states|] == State(f.start, g.start, INVALID, 0)
    ensures Laid(t, Cons(Alt(l, r), rest), Cons(Frag(|m.states|, f.out, lo), below), |t.states|)
  {
    hide OpenAt, Built, Ends, Start, Laid;
    Alternated(m, t, l, r, lo, f, g);
    BelowExtended(m, t, l, rest, below, lo, g.out);
    LaidCons(t, Alt(l, r), rest, Frag(|m.states|, f.out, lo), below, lo);
  }

  lemma {:induction false} LaidOptioned(m: Nfa, t: Nfa, b: Re, rest: List<Re>, f: Frag, below: List<Frag>, lo: int)
    requires lo >= 0 && OpenAt(m, b, lo, f) && Laid(m, rest, below, lo)
    requires |m.states| == lo + Size(b) && ExtendedAt(m, t, Ends(b, lo), |m.states|)
    requires |t.states| == |m.states| + 1 && t.states[|m.states|] == State(INVALID, f.start, INVALID, 0)
    ensures Laid(t, Cons(Opt(b), rest), Cons(Frag(|m.states|, f.out, lo), below), |t.states|)
  {
    hide OpenAt, Built, Ends, Start, Laid;
    Optioned(m, t, b, lo, f);
    BelowExtended(m, t, b, rest, below, lo, |m.states|);
    LaidCons(t, Opt(b), rest, Frag(|m.states|, f.out, lo), below, lo);
  }

  lemma {:induction false} LaidStar(m: Nfa, t: Nfa, b: Re, rest: List<Re>, f: Frag, below: List<Frag>, lo: int)
    requires lo >= 0 && OpenAt(m, b, lo, f) && Laid(m, rest, below, lo)
    requires |m.states| == lo + Size(b) && PatchedAt(m, t, b, lo, |m.states|)
    requires |t.states| == |m.states| + 1 && t.states[|m.states|] == State(INVALID, f.start, INVALID, 0)
    ensures Laid(t, Cons(Star(b), rest), Cons(Frag(|m.states|, |m.states|, lo), below), |t.states|)
  {
    hide OpenAt, Built, Ends, Start, Laid;
    Repeated(m, t, b, lo, f);
    BelowPatched(m, t, b, rest, below, lo, |m.states|);
    LaidCons(t, Star(b), rest, Frag(|m.states|, |m.states|, lo), below, lo);
  }

  lemma {:induction false} LaidPlus(m: Nfa, t: Nfa, b: Re, rest: List<Re>, f: Frag, below: List<Frag>, lo: int)
    requires lo >= 0 && OpenAt(m, b, lo, f) && Laid(m, rest, below, lo)
    requires |m.states| == lo + Size(b) && PatchedAt(m, t, b, lo, |m.states|)
    requires |t.states| == |m.states| + 1 && t.states[|m.states|] == State(INVALID, f.start, INVALID, 0)
    ensures Laid(t, Cons(Plus(b), rest), Cons(Frag(f.start, |m.states|, lo), below), |t.states|)
  {
    hide OpenAt, Built, Ends, Start, Laid;
    Repeated(m, t, b, lo, f);
    BelowPatched(m, t, b, rest, below, lo, |m.states|);
    LaidCons(t, Plus(b), rest, Frag(f.start, |m.states|, lo), below, lo);
  }

  lemma {:induction false} LaidCloned(m: Nfa, t: Nfa, b: Re, rest: List<Re>, f: Frag, below: List<Frag>, lo: int)
    requires lo >= 0 && OpenAt(m, b, lo, f) && Laid(m, rest, below, lo) && |m.states| == lo + Size(b)
    requires Same(m, t, 0, |m.states|) && ClonedAt(m, t, lo, |m.states|, Size(b)) && |t.states| == |m.states| + Size(b)
    ensures Laid(t, Cons(b, Cons(b, rest)),
      Cons(Frag(f.start + Size(b), f.out + Size(b), |m.states|), Cons(f, below)), |t.states|)
  {
    hide OpenAt, Built, Ends, Start, Laid;
    var hi := |m.states|;
    BelowKept(m, t, b, rest, f, below, lo, hi);
    Cloned(m, t, b, lo, hi, f);
    LaidCons(t, b, Cons(b, rest), Frag(f.start + Size(b), f.out + Size(b), hi), Cons(f, below), hi);
  }

  lemma {:induction false} BelowKept(m: Nfa, t: Nfa, b: Re, rest: List<Re>, f: Frag, below: List<Frag>, lo: int,
      hi: int)
    requires OpenAt(m, b, lo, f) && Laid(m, rest, below, lo) && hi == lo + Size(b) && Same(m, t, 0, hi)
    ensures Laid(t, Cons(b, rest), Cons(f, below), hi)
  {
    hide Laid, OpenAt;
    LaidCons(m, b, rest, f, below, lo);
    LaidKept(m, t, Cons(b, rest), Cons(f, below), hi);
  }

  lemma {:induction false} LaidPushed(m: Nfa, t: Nfa, a: Atom, trees: List<Re>, operands: List<Frag>)
    requires Laid(m, trees, operands, |m.states|) && Same(m, t, 0, |m.states|)
    requires |t.states| == |m.states| + 1 && AtomAt(t, |m.states|, a) && t.states[|m.states|].out == INVALID
    ensures Laid(t, Cons(One(a), trees), Cons(Frag(|m.states|, |m.states|, |m.states|), operands), |t.states|)
  {
    hide Same;
    LaidKept(m, t, trees, operands, |m.states|);
  }

  // The only operand, patched to the matching state, is the whole automaton.
  lemma {:induction false} Completed(m: Nfa, t: Nfa, re: Re, f: Frag)
    requires Laid(m, Cons(re, Nil), Cons(f, Nil), |m.states|) && PatchedAt(m, t, re, 0, |m.states|)
    requires |t.states| == |m.states| + 1 && t.states[|m.states|] == MATCHING
    ensures Compiled(t, re) && f.start == Start(re, 0)
  {
    LaidTop(m, Cons(re, Nil), Cons(f, Nil), |m.states|);
    BuiltAfterPatch(m, t, re, 0, f, |m.states|);
  }

  lemma {:induction false} SameHeight(m: Nfa, trees: List<Re>, operands: List<Frag>, hi: int)
    requires Laid(m, trees, operands, hi)
    ensures trees.Nil? == operands.Nil?
    ensures trees.Cons? ==> trees.tail.Nil? == operands.tail.Nil?
  {
    if trees.Cons? {
      LaidTop(m, trees, operands, hi);
    }
  }

  lemma {:induction false} LaidEmpty(m: Nfa, trees: List<Re>, operands: List<Frag>, hi: int)
    requires Laid(m, trees, operands, hi) && trees.Nil?
    ensures hi == 0
  {
  }

  // Many operands

  function Height<T>(l: List<T>): nat {
    if l.Nil? then 0 else 1 + Height(l.tail)
  }

  // `k` copies of an operand.
  function Piled(a: Re, k: nat, rest: List<Re>): (l: List<Re>)
    ensures Height(l) == k + Height(rest)
  {
    if k == 0 then rest else Cons(a, Piled(a, k - 1, rest))
  }

  // The topmost operands, concatenated `k` times.
  function Folded(trees: List<Re>, k: nat): List<Re>
    decreases k
  {
    if k == 0 || trees.Nil? || trees.tail.Nil? then trees
    else Folded(Cons(Cat(trees.tail.head, trees.head), trees.tail.tail), k - 1)
  }

  lemma {:induction false} FoldedPile(z: Re, a: Re, k: nat, rest: List<Re>, j: nat, n: nat)
    ensures Folded(Cons(Repeat(a, n, z), Piled(a, k, rest)), k + j) == Folded(Cons(Repeat(a, n + k, z), rest), j)
    decreases k
  {
    if k > 0 {
      FoldedPile(z, a, k - 1, rest, j, n + 1);
    }
  }

  lemma {:induction false} PiledMore(a: Re, k: nat, rest: List<Re>)
    ensures Piled(a, k, Cons(a, rest)) == Cons(a, Piled(a, k, rest))
  {
    if k > 0 {
      PiledMore(a, k - 1, rest);
    }
  }

  // The ranges of a class under way: they lie one after the other, none negated yet.
  function Chain(base: int, spans: seq<Span>): (r: seq<Range>)
    ensures |r| == |spans|
  {
    seq(|spans|, j requires 0 <= j < |spans| =>
      Range(spans[j].first, spans[j].last, if j == |spans| - 1 then INVALID else base + j + 1))
  }

  lemma ChainMore(base: int, spans: seq<Span>, s: Span)
    ensures var r := Chain(base, spans);
      var linked := if spans == [] then r else r[|r| - 1 := r[|r| - 1].(next := base + |r|)];
      Chain(base, spans + [s]) == linked + [Range(s.first, s.last, INVALID)]
  {
  }

  lemma ChainLast(base: int, spans: seq<Span>, c: CodePoint)
    requires spans != []
    ensures var r, n := Chain(base, spans), |spans| - 1;
      Chain(base, spans[..n] + [spans[n].(last := c)]) == r[n := r[n].(end := c)]
  {
  }

  // A finished class: the negation is a flag on its first range.
  lemma ChainIsClass(before: seq<Range>, k: Class, after: seq<Range>)
    requires k.spans != [] && |after| == |before| + |k.spans|
    requires var c := Chain(|before|, k.spans);
      after == before + if k.negated then c[0 := c[0].(start := c[0].start + NEGATION)] else c
    ensures ClassAt(after, |before|, k) && (Forward(before) ==> Forward(after))
  {
    forall j | 0 <= j < |k.spans| ensures after[|before| + j] == RangeOf(k, |before|, j) {
    }
  }
}
