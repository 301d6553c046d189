/** Running the automaton on all its active states at once. */
module RegexSearch {
  import opened RegexLanguage
  import opened RegexNfa

  // Splits

  // Following splits from `i` reaches other states in fewer than `d` steps.
  predicate Shallow(m: Nfa, i: int, d: nat)
    decreases d
  {
    d > 0 && 0 <= i < |m.states| &&
    (m.states[i].out1 != INVALID ==> Shallow(m, m.states[i].out, d - 1) && Shallow(m, m.states[i].out1, d - 1))
  }

  lemma {:induction false} ShallowMore(m: Nfa, i: int, d: nat, e: nat)
    requires Shallow(m, i, d) && d <= e
    ensures Shallow(m, i, e)
    decreases d
  {
    if m.states[i].out1 != INVALID {
      ShallowMore(m, m.states[i].out, d - 1, e - 1);
      ShallowMore(m, m.states[i].out1, d - 1, e - 1);
    }
  }

  function Depth(re: Re): (d: nat)
    ensures d > 0
  {
    match re
    case One(_) => 1
    case Cat(l, r) => Depth(l) + Depth(r)
    case Alt(l, r) => Depth(l) + Depth(r) + 1
    case Opt(b) => Depth(b) + 1
    case Star(b) => 2 * Depth(b) + 1
    case Plus(b) => 2 * Depth(b) + 1
  }

  // A state of a finished automaton: following splits from it ends, and a character leads on.
  predicate Usable(m: Nfa, i: int, d: nat) {
    Shallow(m, i, d) && (m.states[i].out1 == INVALID ==> 0 <= m.states[i].out < |m.states|)
  }

  predicate AllUsable(m: Nfa, lo: nat, hi: nat, d: nat) {
    forall i :: lo <= i < hi ==> Usable(m, i, d)
  }

  lemma {:induction false} UsableMore(m: Nfa, lo: nat, hi: nat, d: nat, e: nat)
    requires AllUsable(m, lo, hi, d) && d <= e
    ensures AllUsable(m, lo, hi, e)
  {
    forall i | lo <= i < hi ensures Usable(m, i, e) {
      assert Usable(m, i, d);
      ShallowMore(m, i, d, e);
    }
  }

  // An expression that does not match the empty word is not crossed without a character.
  lemma {:induction false} StartShallow(m: Nfa, re: Re, lo: nat)
    requires Built(m, re, lo) && Tame(re) && !Nullable(re)
    ensures Shallow(m, Start(re, lo), Depth(re))
    decreases Size(re), 1
  {
    hide LeadTo, Ends;
    match re
    case One(_) =>
    case Cat(l, r) =>
      var mid := lo + Size(l);
      if Nullable(l) {
        StartShallow(m, r, mid);
        UsableStates(m, l, lo, Start(r, mid), Depth(r));
        assert Usable(m, Start(l, lo), Depth(r) + Depth(l));
      } else {
        StartShallow(m, l, lo);
        ShallowMore(m, Start(l, lo), Depth(l), Depth(re));
      }
    case Alt(l, r) =>
      StartShallow(m, l, lo);
      StartShallow(m, r, lo + Size(l));
      ShallowMore(m, Start(l, lo), Depth(l), Depth(re) - 1);
      ShallowMore(m, Start(r, lo + Size(l)), Depth(r), Depth(re) - 1);
    case Plus(b) =>
      StartShallow(m, b, lo);
      ShallowMore(m, Start(b, lo), Depth(b), Depth(re));
  }

  // All states of a tame expression are usable.
  lemma {:induction false} UsableStates(m: Nfa, re: Re, lo: nat, x: int, d: nat)
    requires Built(m, re, lo) && Tame(re) && LeadTo(m.states, Ends(re, lo), x) && Shallow(m, x, d)
    ensures AllUsable(m, lo, lo + Size(re), d + Depth(re))
    decreases Size(re), 1
  {
    match re
    case One(_) =>
      assert m.states[Ends(re, lo)[0]].out == x;
    case Cat(l, r) => UsableSequence(m, l, r, lo, x, d);
    case Alt(l, r) => UsableAlternative(m, l, r, lo, x, d);
    case Opt(b) => UsableOption(m, b, lo, x, d);
    case Star(b) =>
      assert m.states[Ends(re, lo)[0]].out == x;
      UsableLoop(m, b, lo, x, d);
    case Plus(b) =>
      assert m.states[Ends(re, lo)[0]].out == x;
      UsableLoop(m, b, lo, x, d);
  }

  lemma {:induction false} UsableSequence(m: Nfa, l: Re, r: Re, lo: nat, x: int, d: nat)
    requires Built(m, Cat(l, r), lo) && Tame(l) && Tame(r) && LeadTo(m.states, Ends(r, lo + Size(l)), x) &&
      Shallow(m, x, d)
    ensures AllUsable(m, lo, lo + Size(l) + Size(r), d + Depth(l) + Depth(r))
    decreases Size(l) + Size(r), 0
  {
    var mid := lo + Size(l);
    UsableStates(m, r, mid, x, d);
    assert Usable(m, Start(r, mid), d + Depth(r));
    UsableStates(m, l, lo, Start(r, mid), d + Depth(r));
    UsableMore(m, mid, mid + Size(r), d + Depth(r), d + Depth(l) + Depth(r));
  }

  lemma {:induction false} UsableAlternative(m: Nfa, l: Re, r: Re, lo: nat, x: int, d: nat)
    requires Built(m, Alt(l, r), lo) && Tame(l) && Tame(r) && LeadTo(m.states, Ends(Alt(l, r), lo), x) &&
      Shallow(m, x, d)
    ensures AllUsable(m, lo, lo + Size(l) + Size(r) + 1, d + Depth(Alt(l, r)))
    decreases Size(l) + Size(r) + 1, 0
  {
    var mid := lo + Size(l);
    var hi, e := mid + Size(r), d + Depth(l) + Depth(r);
    LeadPrefix(m.states, Ends(l, lo), Ends(r, mid), x);
    UsableStates(m, l, lo, x, d);
    UsableStates(m, r, mid, x, d);
    UsableMore(m, lo, mid, d + Depth(l), e);
    UsableMore(m, mid, hi, d + Depth(r), e);
    assert Usable(m, Start(l, lo), e) && Usable(m, Start(r, mid), e);
    UsableMore(m, lo, mid, e, e + 1);
    UsableMore(m, mid, hi, e, e + 1);
    assert Usable(m, hi, e + 1);
  }

  lemma {:induction false} UsableOption(m: Nfa, b: Re, lo: nat, x: int, d: nat)
    requires Built(m, Opt(b), lo) && Tame(b) && LeadTo(m.states, Ends(Opt(b), lo), x) && Shallow(m, x, d)
    ensures AllUsable(m, lo, lo + Size(b) + 1, d + Depth(b) + 1)
    decreases Size(b) + 1, 0
  {
    var s := lo + Size(b);
    OptionParts(m, b, lo, x);
    UsableStates(m, b, lo, x, d);
    assert Usable(m, Start(b, lo), d + Depth(b));
    ShallowMore(m, x, d, d + Depth(b));
    UsableMore(m, lo, s, d + Depth(b), d + Depth(b) + 1);
    assert Usable(m, s, d + Depth(b) + 1);
  }

  lemma {:induction false} UsableLoop(m: Nfa, b: Re, lo: nat, x: int, d: nat)
    requires Loop(m, b, lo) && Tame(b) && !Nullable(b) && m.states[lo + Size(b)].out == x && Shallow(m, x, d)
    ensures AllUsable(m, lo, lo + Size(b) + 1, d + 2 * Depth(b) + 1)
    decreases Size(b) + 1, 0
  {
    var s, e := lo + Size(b), d + Depth(b);
    StartShallow(m, b, lo);
    ShallowMore(m, Start(b, lo), Depth(b), e);
    ShallowMore(m, x, d, e);
    assert Shallow(m, s, e + 1);
    UsableStates(m, b, lo, s, e + 1);
    ShallowMore(m, s, e + 1, d + 2 * Depth(b) + 1);
  }

  // Active states

  // The states that take characters, or match, reached from `i` through splits.
  function Closure(m: Nfa, i: int, d: nat): (c: set<int>)
    ensures forall b :: b in c ==> 0 <= b < |m.states| && m.states[b].out1 == INVALID
    decreases d
  {
    if d == 0 || !(0 <= i < |m.states|) then {}
    else if m.states[i].out1 != INVALID then Closure(m, m.states[i].out, d - 1) + Closure(m, m.states[i].out1, d - 1)
    else {i}
  }

  // The word is accepted from one of the states.
  ghost predicate Live(m: Nfa, active: set<int>, w: Word) {
    exists b :: b in active && Accepts(m, b, w)
  }

  lemma LiveUnion(m: Nfa, a: set<int>, b: set<int>, w: Word)
    ensures Live(m, a + b, w) <==> Live(m, a, w) || Live(m, b, w)
  {
  }

  lemma {:induction false} ClosureLive(m: Nfa, i: int, d: nat, w: Word)
    requires Shallow(m, i, d)
    ensures Live(m, Closure(m, i, d), w) <==> Accepts(m, i, w)
    ensures Closure(m, i, d) != {}
    decreases d
  {
    var s := m.states[i];
    if s.out1 == INVALID {
      assert i in Closure(m, i, d);
    } else {
      ClosureLive(m, s.out, d - 1, w);
      ClosureLive(m, s.out1, d - 1, w);
      LiveUnion(m, Closure(m, s.out, d - 1), Closure(m, s.out1, d - 1), w);
      AcceptsSplit(m, i, w);
    }
  }

  lemma {:induction false} ClosureMore(m: Nfa, i: int, d: nat, e: nat)
    requires Shallow(m, i, d) && d <= e
    ensures Closure(m, i, e) == Closure(m, i, d)
    decreases d
  {
    if m.states[i].out1 != INVALID {
      ClosureMore(m, m.states[i].out, d - 1, e - 1);
      ClosureMore(m, m.states[i].out1, d - 1, e - 1);
    }
  }

  // The matching state is active.
  predicate Matching(m: Nfa, active: set<int>) {
    exists b :: b in active && 0 <= b < |m.states| && m.states[b].out == INVALID
  }

  // States that take characters, or match.
  predicate Resting(m: Nfa, active: set<int>) {
    forall b :: b in active ==> 0 <= b < |m.states| && m.states[b].out1 == INVALID
  }

  lemma {:induction false} MatchingIsLive(m: Nfa, active: set<int>)
    requires Resting(m, active)
    ensures Matching(m, active) <==> Live(m, active, [])
  {
    forall b | b in active ensures Accepts(m, b, []) <==> m.states[b].out == INVALID {
      if m.states[b].out == INVALID {
        AcceptsEnd(m, b, []);
      } else {
        AcceptsStep(m, b, []);
      }
    }
  }

  // The states that follow on a character.
  function Moved(m: Nfa, active: set<int>, c: CodePoint, d: nat): set<int>
    requires Resting(m, active)
  {
    set a, b | a in active && Takes(m, m.states[a], c) && b in Closure(m, m.states[a].out, d) :: b
  }

  // Following any state that takes a character ends.
  predicate Ready(m: Nfa, d: nat) {
    && (forall i :: 0 <= i < |m.states| && m.states[i].out1 == INVALID && m.states[i].out != INVALID ==>
          Shallow(m, m.states[i].out, d))
    && (forall i :: 0 <= i < |m.states| && m.states[i].out == INVALID ==> m.states[i].codepoint == 0)
  }

  lemma {:induction false} MovedLive(m: Nfa, active: set<int>, c: CodePoint, d: nat, v: Word)
    requires Resting(m, active) && Ready(m, d)
    ensures Live(m, Moved(m, active, c, d), v) <==> Live(m, active, [c] + v)
  {
    var w := [c] + v;
    assert w[0] == c && w[1..] == v;
    forall a | a in active
      ensures Accepts(m, a, w) <==> Takes(m, m.states[a], c) && Live(m, Closure(m, m.states[a].out, d), v)
    {
      if m.states[a].out == INVALID {
        AcceptsEnd(m, a, w);
      } else {
        AcceptsStep(m, a, w);
        ClosureLive(m, m.states[a].out, d, v);
      }
    }
  }

  lemma {:induction false} TameIsReady(m: Nfa, re: Re)
    requires Compiled(m, re) && Tame(re)
    ensures Ready(m, Depth(re) + 1) && Shallow(m, Start(re, 0), Depth(re) + 1)
  {
    var x, d := Size(re), Depth(re) + 1;
    UsableStates(m, re, 0, x, 1);
    ShallowMore(m, x, 1, d);
    assert Usable(m, Start(re, 0), d);
    forall i | 0 <= i < |m.states| && m.states[i].out1 == INVALID && m.states[i].out != INVALID
      ensures Shallow(m, m.states[i].out, d)
    {
      assert Usable(m, i, d);
      if m.states[i].out != x {
        assert Usable(m, m.states[i].out, d);
      }
    }
    forall i | 0 <= i < |m.states| ensures m.states[i].out == INVALID ==> m.states[i].codepoint == 0 {
      if i != x {
        assert Usable(m, i, d);
        LeadsOn(m, i, d);
      }
    }
  }

  lemma LeadsOn(m: Nfa, i: int, d: nat)
    requires Usable(m, i, d) && d > 1
    ensures m.states[i].out != INVALID
  {
    if m.states[i].out1 != INVALID {
      assert Shallow(m, m.states[i].out, d - 1);
    }
  }

  // Lists of states

  ghost function Elements(list: seq<int>): set<int> {
    set x | x in list
  }

  lemma SomeElement(list: seq<int>)
    requires list != []
    ensures Elements(list) != {}
  {
    assert list[0] in Elements(list);
  }

  lemma NoElement(list: seq<int>)
    ensures list == [] ==> Elements(list) == {}
  {
  }

  lemma EmptyUnion(s: set<int>)
    ensures Elements([]) + s == s
  {
  }

  // Different states, all of the automaton.
  predicate Distinct(list: seq<int>, n: nat) {
    && (forall i :: 0 <= i < |list| ==> 0 <= list[i] < n)
    && (forall i, j :: 0 <= i < j < |list| ==> list[i] != list[j])
  }

  // There are never more of them than states.
  lemma {:induction false} DistinctFit(list: seq<int>, n: nat)
    requires Distinct(list, n)
    ensures |list| <= n && |Elements(list)| == |list|
    decreases |list|
  {
    if list != [] {
      var front, last := list[..|list| - 1], list[|list| - 1];
      DistinctFit(front, n);
      assert Elements(list) == Elements(front) + {last};
    }
    BelowIs(n);
    Subset(Elements(list), Below(n));
  }

  function Below(n: nat): set<int> {
    if n == 0 then {} else Below(n - 1) + {n - 1}
  }

  lemma {:induction false} BelowIs(n: nat)
    ensures (forall x :: x in Below(n) <==> 0 <= x < n) && |Below(n)| == n
  {
    if n > 0 {
      BelowIs(n - 1);
    }
  }

  lemma {:induction false} Subset<T>(a: set<T>, b: set<T>)
    requires a <= b
    ensures |a| <= |b|
    decreases |a|
  {
    if a != {} {
      var x :| x in a;
      Subset(a - {x}, b - {x});
    }
  }

  // Searching a text

  // Where a part of the text that ends at `k` may begin.
  predicate From(i: int, k: int, begin: bool) {
    0 <= i <= k && (begin ==> i == 0)
  }

  // From the start state, a part of the text that ends at `k`, then `v`, is accepted; the part
  // begins where the anchor allows.
  ghost predicate Pending(m: Nfa, root: int, text: Word, k: nat, begin: bool, v: Word)
    requires k <= |text|
  {
    exists i :: From(i, k, begin) && Accepts(m, root, text[i..k] + v)
  }

  // The active states stand for all matches that are pending after `k` characters.
  ghost predicate Tracks(m: Nfa, root: int, active: set<int>, text: Word, k: nat, begin: bool)
    requires k <= |text|
  {
    forall v :: Live(m, active, v) <==> Pending(m, root, text, k, begin, v)
  }

  // A part of the text that is not empty and ends at `k` is accepted.
  ghost predicate Hit(m: Nfa, root: int, text: Word, k: nat, begin: bool)
    requires k <= |text|
  {
    exists i :: From(i, k - 1, begin) && Accepts(m, root, text[i..k])
  }

  lemma {:induction false} TracksStart(m: Nfa, root: int, text: Word, begin: bool, d: nat)
    requires Shallow(m, root, d)
    ensures Tracks(m, root, Closure(m, root, d), text, 0, begin)
  {
    forall v ensures Live(m, Closure(m, root, d), v) <==> Pending(m, root, text, 0, begin, v) {
      ClosureLive(m, root, d, v);
      assert text[0..0] + v == v && From(0, 0, begin);
    }
  }

  lemma PartOf(text: Word, i: nat, k: nat, v: Word)
    requires i <= k < |text|
    ensures text[i..k] + ([text[k]] + v) == text[i..k + 1] + v
  {
  }

  // What has been active, moved on by the next character.
  lemma {:induction false} PendingMoved(m: Nfa, root: int, active: set<int>, text: Word, k: nat, begin: bool, d: nat,
      v: Word)
    requires Resting(m, active) && Ready(m, d) && k < |text| && Tracks(m, root, active, text, k, begin)
    ensures Live(m, Moved(m, active, text[k], d), v) <==>
      exists i :: From(i, k, begin) && Accepts(m, root, text[i..k + 1] + v)
  {
    MovedLive(m, active, text[k], d, v);
    var w := [text[k]] + v;
    assert Live(m, active, w) <==> Pending(m, root, text, k, begin, w);
    if i :| From(i, k, begin) && Accepts(m, root, text[i..k] + w) {
      PartOf(text, i, k, v);
    }
    if i :| From(i, k, begin) && Accepts(m, root, text[i..k + 1] + v) {
      PartOf(text, i, k, v);
    }
  }

  lemma {:induction false} TracksStep(m: Nfa, root: int, active: set<int>, next: set<int>, text: Word, k: nat,
      begin: bool, d: nat)
    requires Resting(m, active) && Ready(m, d) && Shallow(m, root, d) && k < |text| &&
      Tracks(m, root, active, text, k, begin)
    requires next == Moved(m, active, text[k], d) + if begin then {} else Closure(m, root, d)
    ensures Tracks(m, root, next, text, k + 1, begin)
  {
    forall v ensures Live(m, next, v) <==> Pending(m, root, text, k + 1, begin, v) {
      PendingMoved(m, root, active, text, k, begin, d, v);
      LiveUnion(m, Moved(m, active, text[k], d), if begin then {} else Closure(m, root, d), v);
      ClosureLive(m, root, d, v);
      PendingNext(m, root, text, k, begin, v);
    }
  }

  lemma {:induction false} PendingNext(m: Nfa, root: int, text: Word, k: nat, begin: bool, v: Word)
    requires k < |text|
    ensures Pending(m, root, text, k + 1, begin, v) <==>
      (!begin && Accepts(m, root, v)) || exists i :: From(i, k, begin) && Accepts(m, root, text[i..k + 1] + v)
  {
    var n := k + 1;
    assert text[n..n] + v == v;
    assert From(n, n, begin) <==> !begin;
    if i :| From(i, n, begin) && Accepts(m, root, text[i..n] + v) {
      assert i == n || From(i, k, begin);
    }
    if i :| From(i, k, begin) && Accepts(m, root, text[i..n] + v) {
      assert From(i, n, begin);
    }
  }

  // A transition leads to the matching state exactly when there is a hit.
  lemma {:induction false} MatchingIsHit(m: Nfa, root: int, active: set<int>, text: Word, k: nat, begin: bool, d: nat)
    requires Resting(m, active) && Ready(m, d) && k < |text| && Tracks(m, root, active, text, k, begin)
    ensures Matching(m, Moved(m, active, text[k], d)) <==> Hit(m, root, text, k + 1, begin)
  {
    MatchingIsLive(m, Moved(m, active, text[k], d));
    PendingMoved(m, root, active, text, k, begin, d, []);
    forall i | From(i, k, begin) ensures Accepts(m, root, text[i..k + 1] + []) <==> Accepts(m, root, text[i..k + 1]) {
      assert text[i..k + 1] + [] == text[i..k + 1];
    }
  }

  // When no state is active any more, nothing can match.
  lemma {:induction false} NothingActive(m: Nfa, root: int, text: Word, k: nat, j: nat, begin: bool)
    requires k <= j <= |text| && begin && Tracks(m, root, {}, text, k, begin)
    ensures !Hit(m, root, text, j, begin)
  {
    assert text[0..k] + text[k..j] == text[0..j];
    assert !Live(m, {}, text[k..j]);
    assert !Pending(m, root, text, k, begin, text[k..j]);
  }

  // What a search reports: for an empty text, whether it is accepted; for any other, whether a part
  // that is not empty is accepted, where the anchors allow.
  ghost predicate Reported(m: Nfa, root: int, text: Word, begin: bool, end: bool) {
    if text == [] then Accepts(m, root, [])
    else exists j :: 0 <= j <= |text| && (end ==> j == |text|) && Hit(m, root, text, j, begin)
  }

  // One more active state moved on.
  lemma {:induction false} MovedMore(m: Nfa, active: set<int>, a: int, c: CodePoint, d: nat)
    requires Resting(m, active + {a})
    ensures Moved(m, active + {a}, c, d) ==
      Moved(m, active, c, d) + if Takes(m, m.states[a], c) then Closure(m, m.states[a].out, d) else {}
    ensures !Takes(m, m.states[a], c) ==> Moved(m, active + {a}, c, d) == Moved(m, active, c, d)
  {
    var more, own := active + {a}, if Takes(m, m.states[a], c) then Closure(m, m.states[a].out, d) else {};
    forall x ensures x in Moved(m, more, c, d) <==> x in Moved(m, active, c, d) + own {
      if x in own {
        assert a in more;
      }
      if b :| b in active && Takes(m, m.states[b], c) && x in Closure(m, m.states[b].out, d) {
        assert b in more;
      }
    }
  }

  lemma MatchingUnion(m: Nfa, a: set<int>, b: set<int>)
    requires Resting(m, a) && Resting(m, b)
    ensures Matching(m, a + b) <==> Matching(m, a) || Matching(m, b)
  {
  }

  lemma {:induction false} ClosureResting(m: Nfa, i: int, d: nat)
    ensures Resting(m, Closure(m, i, d))
  {
  }

  lemma {:induction false} MovedResting(m: Nfa, active: set<int>, c: CodePoint, d: nat)
    requires Resting(m, active)
    ensures Resting(m, Moved(m, active, c, d))
  {
  }

  lemma {:induction false} NoneMoved(m: Nfa, c: CodePoint, d: nat)
    ensures Elements([]) == {} && Resting(m, {}) && Moved(m, {}, c, d) == {} && !Matching(m, {})
  {
  }

  lemma TakesShallow(m: Nfa, active: set<int>, a: int, c: CodePoint, d: nat)
    requires Ready(m, d) && Resting(m, active + {a})
    ensures 0 <= a < |m.states| && (Takes(m, m.states[a], c) ==> Shallow(m, m.states[a].out, d))
  {
    assert a in active + {a};
  }

  lemma RestingPart(m: Nfa, list: seq<int>, i: nat)
    requires i <= |list| && Resting(m, Elements(list))
    ensures Resting(m, Elements(list[..i]))
  {
    forall x | x in list[..i] ensures x in Elements(list) {
    }
  }

  lemma {:induction false} MatchingMoved(m: Nfa, active: set<int>, a: int, c: CodePoint, d: nat)
    requires Resting(m, active + {a}) && Takes(m, m.states[a], c)
    ensures Matching(m, Moved(m, active + {a}, c, d)) <==>
      Matching(m, Moved(m, active, c, d)) || Matching(m, Closure(m, m.states[a].out, d))
  {
    MovedMore(m, active, a, c, d);
    MovedResting(m, active, c, d);
    ClosureResting(m, m.states[a].out, d);
    MatchingUnion(m, Moved(m, active, c, d), Closure(m, m.states[a].out, d));
  }

  lemma {:induction false} MatchingAll(m: Nfa, list: seq<int>, i: nat, c: CodePoint, d: nat)
    requires i <= |list| && Resting(m, Elements(list)) && Resting(m, Elements(list[..i]))
    requires Matching(m, Moved(m, Elements(list[..i]), c, d))
    ensures Matching(m, Moved(m, Elements(list), c, d))
  {
    var b :| b in Moved(m, Elements(list[..i]), c, d) && 0 <= b < |m.states| && m.states[b].out == INVALID;
    var a :| a in Elements(list[..i]) && Takes(m, m.states[a], c) && b in Closure(m, m.states[a].out, d);
    assert a in Elements(list);
  }

  // What the simulation knows after `k` characters: the active states, and whether the last
  // transitions led to the matching state. Without an anchor at the end that has never happened.
  ghost predicate Progress(m: Nfa, root: int, active: set<int>, matched: bool, text: Word, k: nat, begin: bool,
      end: bool) {
    && k <= |text| && Resting(m, active) && Tracks(m, root, active, text, k, begin)
    && (matched <==> if k == 0 then Accepts(m, root, []) else Hit(m, root, text, k, begin))
    && (!end ==> forall j :: 0 < j <= k ==> !Hit(m, root, text, j, begin))
    && (active == {} ==> begin && k > 0)
  }

  lemma {:induction false} ProgressStart(m: Nfa, root: int, text: Word, begin: bool, end: bool, d: nat)
    requires Shallow(m, root, d)
    ensures Progress(m, root, Closure(m, root, d), Matching(m, Closure(m, root, d)), text, 0, begin, end)
  {
    TracksStart(m, root, text, begin, d);
    MatchingIsLive(m, Closure(m, root, d));
    ClosureLive(m, root, d, []);
  }

  lemma {:induction false} ProgressStep(m: Nfa, root: int, active: set<int>, matched: bool, next: set<int>,
      found: bool, text: Word, k: nat, begin: bool, end: bool, d: nat)
    requires Progress(m, root, active, matched, text, k, begin, end) && k < |text| && active != {}
    requires Ready(m, d) && Shallow(m, root, d) && (found ==> end)
    requires next == Moved(m, active, text[k], d) + if begin then {} else Closure(m, root, d)
    requires found == Matching(m, Moved(m, active, text[k], d))
    ensures Progress(m, root, next, found, text, k + 1, begin, end)
  {
    TracksStep(m, root, active, next, text, k, begin, d);
    MatchingIsHit(m, root, active, text, k, begin, d);
    ClosureLive(m, root, d, []);
    MovedResting(m, active, text[k], d);
    ClosureResting(m, root, d);
  }

  lemma ProgressResting(m: Nfa, root: int, active: set<int>, matched: bool, text: Word, k: nat, begin: bool, end: bool)
    requires Progress(m, root, active, matched, text, k, begin, end)
    ensures Resting(m, active)
  {
  }

  // Without an anchor at the end, a transition to the matching state decides.
  lemma {:induction false} ReportedEarly(m: Nfa, root: int, active: set<int>, matched: bool, text: Word, k: nat,
      begin: bool, d: nat)
    requires Progress(m, root, active, matched, text, k, begin, false) && k < |text| && Ready(m, d)
    requires Matching(m, Moved(m, active, text[k], d))
    ensures Reported(m, root, text, begin, false)
  {
    MatchingIsHit(m, root, active, text, k, begin, d);
  }

  // At the end of the text, or when no state is active any more, the last transitions decide.
  lemma {:induction false} ReportedFinally(m: Nfa, root: int, active: set<int>, matched: bool, text: Word, k: nat,
      begin: bool, end: bool)
    requires Progress(m, root, active, matched, text, k, begin, end) && (k == |text| || active == {})
    ensures Reported(m, root, text, begin, end) <==> matched
  {
    if active == {} {
      forall j | k <= j <= |text| ensures !Hit(m, root, text, j, begin) {
        NothingActive(m, root, text, k, j, begin);
      }
    }
    assert !Hit(m, root, text, 0, begin);
  }

  // What a search means for the language

  // A part of the text is a word of the language, where the anchors allow; it may have to be longer
  // than nothing.
  ghost predicate Occurs(re: Re, text: Word, begin: bool, end: bool, least: nat) {
    exists i, j :: Part(text, i, j, begin, end) && j - i >= least && In(re, text[i..j])
  }

  predicate Part(text: Word, i: int, j: int, begin: bool, end: bool) {
    0 <= i <= j <= |text| && (begin ==> i == 0) && (end ==> j == |text|)
  }

  lemma {:induction false} HitIsPart(m: Nfa, re: Re, text: Word, j: nat, begin: bool)
    requires Compiled(m, re) && j <= |text|
    ensures Hit(m, Start(re, 0), text, j, begin) <==>
      exists i :: From(i, j - 1, begin) && In(re, text[i..j])
  {
    forall i | From(i, j - 1, begin) ensures Accepts(m, Start(re, 0), text[i..j]) <==> In(re, text[i..j]) {
      CompiledAccepts(m, re, text[i..j]);
    }
  }

  // What a search reports is that a part occurs; in a text that is not empty, a part that is not.
  lemma {:induction false} ReportedOccurs(m: Nfa, re: Re, text: Word, begin: bool, end: bool)
    requires Compiled(m, re)
    ensures Reported(m, Start(re, 0), text, begin, end) <==> Occurs(re, text, begin, end, if text == [] then 0 else 1)
  {
    var root := Start(re, 0);
    if text == [] {
      CompiledAccepts(m, re, text);
      assert text[0..0] == text && Part(text, 0, 0, begin, end);
    } else {
      if j :| 0 <= j <= |text| && (end ==> j == |text|) && Hit(m, root, text, j, begin) {
        HitIsPart(m, re, text, j, begin);
        var i :| From(i, j - 1, begin) && In(re, text[i..j]);
        assert Part(text, i, j, begin, end);
      }
      if i, j :| Part(text, i, j, begin, end) && j - i >= 1 && In(re, text[i..j]) {
        HitIsPart(m, re, text, j, begin);
        assert From(i, j - 1, begin);
      }
    }
  }

  // With both anchors, the part is the whole text.
  lemma {:induction false} MatchIsWhole(re: Re, text: Word)
    ensures Occurs(re, text, true, true, if text == [] then 0 else 1) <==> In(re, text)
  {
    assert text[0..|text|] == text && Part(text, 0, |text|, true, true);
  }

  // A search finds whatever occurs, unless all that occurs is the empty word: it misses that
  // exactly when the text is not empty, an end of it is not anchored, the expression matches the
  // empty word, and no longer part occurs.
  lemma {:induction false} SearchMisses(re: Re, text: Word, begin: bool, end: bool)
    ensures (Occurs(re, text, begin, end, 0) && !Occurs(re, text, begin, end, if text == [] then 0 else 1)) <==>
      (text != [] && !(begin && end) && Nullable(re) && !Occurs(re, text, begin, end, 1))
  {
    NullableIs(re);
    if i, j :| Part(text, i, j, begin, end) && j - i >= 0 && In(re, text[i..j]) && j == i {
      assert text[i..j] == [];
    }
    var at := if begin then 0 else |text|;
    if !(begin && end) {
      assert Part(text, at, at, begin, end) && text[at..at] == [];
    }
  }

  // a* occurs in b, and a search does not find it.
  lemma {:induction false} StarMissed()
    ensures var a, b: CodePoint := 97, 98;
      Occurs(Star(One(Literal(a))), [b], false, false, 0) && !Occurs(Star(One(Literal(a))), [b], false, false, 1)
  {
    var a: CodePoint, b: CodePoint := 97, 98;
    var re, text: Word := Star(One(Literal(a))), [b];
    assert Part(text, 0, 0, false, false) && text[0..0] == [] && In(re, text[0..0]);
    forall k | Cut(text, k) && k > 0 ensures !In(One(Literal(a)), text[..k]) {
      assert text[..k][0] == b;
    }
    assert !Many(One(Literal(a)), text);
    forall i, j | Part(text, i, j, false, false) && j - i >= 1 ensures !In(re, text[i..j]) {
      assert text[i..j] == text;
    }
  }
}
