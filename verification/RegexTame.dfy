/** When following splits ends: exactly in the automata of expressions in which no body that is
    repeated without bound matches the empty word. */
module RegexTame {
  import opened RegexLanguage
  import opened RegexNfa
  import opened RegexSearch

  // Loops that go on for ever

  // An expression that matches the empty word is crossed without a character.
  lemma {:induction false} Crossed(m: Nfa, re: Re, lo: nat, x: int, d: nat)
    requires Built(m, re, lo) && Nullable(re) && LeadTo(m.states, Ends(re, lo), x) && Shallow(m, Start(re, lo), d)
    ensures d > 1 && Shallow(m, x, d - 1)
    decreases re
  {
    hide Built, LeadTo, Ends, Start;
    match re
    case Cat(l, r) =>
      var mid := lo + Size(l);
      SequenceParts(m, l, r, lo, x);
      Crossed(m, l, lo, Start(r, mid), d);
      Crossed(m, r, mid, x, d - 1);
      ShallowMore(m, x, d - 2, d - 1);
    case Alt(l, r) =>
      AlternativeParts(m, l, r, lo, x);
      if Nullable(l) {
        Crossed(m, l, lo, x, d - 1);
      } else {
        Crossed(m, r, lo + Size(l), x, d - 1);
      }
      ShallowMore(m, x, d - 2, d - 1);
    case Opt(b) => OptionParts(m, b, lo, x);
    case Star(b) => LoopParts(m, re, b, lo, x);
    case Plus(b) =>
      LoopParts(m, re, b, lo, x);
      Crossed(m, b, lo, lo + Size(b), d);
      ShallowMore(m, x, d - 2, d - 1);
  }

  // A loop around a body that matches the empty word leads back to its split for ever.
  lemma {:induction false} LoopGoesOn(m: Nfa, b: Re, lo: nat, d: nat)
    requires Loop(m, b, lo) && Nullable(b)
    ensures !Shallow(m, lo + Size(b), d)
    decreases d
  {
    var s := lo + Size(b);
    if Shallow(m, s, d) {
      Crossed(m, b, lo, s, d - 1);
      LoopGoesOn(m, b, lo, d - 2);
    }
  }

  // `(a*)*` is such a loop, and every search starts in it.
  lemma {:induction false} NestedStarLoops(m: Nfa, d: nat)
    requires Compiled(m, Star(Star(One(Literal(97)))))
    ensures !Shallow(m, Start(Star(Star(One(Literal(97)))), 0), d)
  {
    LoopGoesOn(m, Star(One(Literal(97))), 0, d);
  }

  // Only tame expressions end

  // Following splits ends from where each character in the range leads.
  predicate Followed(m: Nfa, lo: nat, hi: nat, d: nat)
    requires hi <= |m.states|
  {
    forall i :: lo <= i < hi && m.states[i].out1 == INVALID ==> Shallow(m, m.states[i].out, d)
  }

  // Some character is the last of a word, so that following splits ends from where the ends lead.
  lemma {:induction false} FollowedOut(m: Nfa, re: Re, lo: nat, x: int, d: nat)
    requires Built(m, re, lo) && LeadTo(m.states, Ends(re, lo), x)
    requires lo + Size(re) <= |m.states| && Followed(m, lo, lo + Size(re), d)
    ensures Shallow(m, x, d)
    decreases re, 1
  {
    hide Built, LeadTo, Ends, Start;
    match re
    case One(a) => AtomParts(m, a, lo, x);
    case Cat(l, r) =>
      SequenceParts(m, l, r, lo, x);
      FollowedOut(m, r, lo + Size(l), x, d);
    case Alt(l, r) =>
      AlternativeParts(m, l, r, lo, x);
      FollowedOut(m, l, lo, x, d);
    case Opt(b) =>
      OptionParts(m, b, lo, x);
      FollowedOut(m, b, lo, x, d);
    case Star(b) => LoopOut(m, re, b, lo, x, d);
    case Plus(b) => LoopOut(m, re, b, lo, x, d);
  }

  lemma {:induction false} LoopOut(m: Nfa, re: Re, b: Re, lo: nat, x: int, d: nat)
    requires (re == Star(b) || re == Plus(b)) && Built(m, re, lo) && LeadTo(m.states, Ends(re, lo), x)
    requires lo + Size(b) <= |m.states| && Followed(m, lo, lo + Size(b), d)
    ensures Shallow(m, x, d)
    decreases b, 2
  {
    LoopParts(m, re, b, lo, x);
    FollowedOut(m, b, lo, lo + Size(b), d);
    ShallowMore(m, x, d - 1, d);
  }

  lemma {:induction false} FollowedIsTame(m: Nfa, re: Re, lo: nat, x: int, d: nat)
    requires Built(m, re, lo) && LeadTo(m.states, Ends(re, lo), x)
    requires lo + Size(re) <= |m.states| && Followed(m, lo, lo + Size(re), d)
    ensures Tame(re)
    decreases re, 1
  {
    hide Built, LeadTo, Ends, Start, Shallow;
    match re
    case One(_) =>
    case Cat(l, r) =>
      SequenceParts(m, l, r, lo, x);
      FollowedIsTame(m, l, lo, Start(r, lo + Size(l)), d);
      FollowedIsTame(m, r, lo + Size(l), x, d);
    case Alt(l, r) =>
      AlternativeParts(m, l, r, lo, x);
      FollowedIsTame(m, l, lo, x, d);
      FollowedIsTame(m, r, lo + Size(l), x, d);
    case Opt(b) =>
      OptionParts(m, b, lo, x);
      FollowedIsTame(m, b, lo, x, d);
    case Star(b) =>
      LoopParts(m, re, b, lo, x);
      LoopIsTame(m, b, lo, d);
    case Plus(b) =>
      LoopParts(m, re, b, lo, x);
      LoopIsTame(m, b, lo, d);
  }

  lemma {:induction false} LoopIsTame(m: Nfa, b: Re, lo: nat, d: nat)
    requires Loop(m, b, lo) && Followed(m, lo, lo + Size(b), d)
    ensures Tame(b) && !Nullable(b)
    decreases b, 2
  {
    FollowedIsTame(m, b, lo, lo + Size(b), d);
    FollowedOut(m, b, lo, lo + Size(b), d);
    if Nullable(b) {
      LoopGoesOn(m, b, lo, d);
    }
  }

  // What takes a character leads somewhere.
  predicate Continues(m: Nfa, i: int) {
    0 <= i < |m.states| && (m.states[i].out1 == INVALID ==> m.states[i].out != INVALID)
  }

  lemma {:induction false} CharactersContinue(m: Nfa, re: Re, lo: nat, x: nat)
    requires Built(m, re, lo) && LeadTo(m.states, Ends(re, lo), x)
    ensures forall i :: lo <= i < lo + Size(re) ==> Continues(m, i)
    decreases re, 0
  {
    hide Built, LeadTo, Ends, Start;
    match re
    case One(a) => AtomParts(m, a, lo, x);
    case Cat(l, r) =>
      SequenceParts(m, l, r, lo, x);
      CharactersContinue(m, l, lo, Start(r, lo + Size(l)));
      CharactersContinue(m, r, lo + Size(l), x);
    case Alt(l, r) =>
      AlternativeParts(m, l, r, lo, x);
      CharactersContinue(m, l, lo, x);
      CharactersContinue(m, r, lo + Size(l), x);
    case Opt(b) =>
      OptionParts(m, b, lo, x);
      CharactersContinue(m, b, lo, x);
    case Star(b) =>
      LoopParts(m, re, b, lo, x);
      LoopContinues(m, b, lo, x);
    case Plus(b) =>
      LoopParts(m, re, b, lo, x);
      LoopContinues(m, b, lo, x);
  }

  lemma {:induction false} LoopContinues(m: Nfa, b: Re, lo: nat, x: nat)
    requires Loop(m, b, lo) && m.states[lo + Size(b)].out == x
    ensures forall i :: lo <= i < lo + Size(b) + 1 ==> Continues(m, i)
    decreases b, 1
  {
    CharactersContinue(m, b, lo, lo + Size(b));
  }

  // The recursion of a search over splits ends, from the start and after every character, if and
  // only if no body that is repeated without bound matches the empty word.
  lemma {:induction false} TameIff(m: Nfa, re: Re)
    requires Compiled(m, re)
    ensures (exists d: nat :: Ready(m, d) && Shallow(m, Start(re, 0), d)) <==> Tame(re)
  {
    if Tame(re) {
      TameIsReady(m, re);
    }
    if d: nat :| Ready(m, d) && Shallow(m, Start(re, 0), d) {
      CharactersContinue(m, re, 0, Size(re));
      forall i | 0 <= i < Size(re) && m.states[i].out1 == INVALID ensures Shallow(m, m.states[i].out, d) {
        assert Continues(m, i);
      }
      FollowedIsTame(m, re, 0, Size(re), d);
    }
  }
}
