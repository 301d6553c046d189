/** Regular expressions and the words they match. */
module RegexLanguage {
  // A decoded character of a pattern or a text: never zero, which ends the stream.
  type CodePoint = c: nat | 0 < c < 0x110000 witness 1

  type Word = seq<CodePoint>

  // A range of characters, its ends included; it is empty if they are the wrong way round.
  datatype Span = Span(first: CodePoint, last: CodePoint)

  datatype Class = Class(negated: bool, spans: seq<Span>)

  predicate Within(c: CodePoint, spans: seq<Span>) {
    exists i :: 0 <= i < |spans| && spans[i].first <= c <= spans[i].last
  }

  predicate InClass(c: CodePoint, k: Class) {
    Within(c, k.spans) != k.negated
  }

  // What one character of a text can be matched with.
  datatype Atom = Literal(c: CodePoint) | AnyOne | OneOf(k: Class)

  predicate Fits(a: Atom, c: CodePoint) {
    match a
    case Literal(x) => c == x
    case AnyOne => true
    case OneOf(k) => InClass(c, k)
  }

  datatype Re =
    | One(atom: Atom)
    | Cat(left: Re, right: Re)
    | Alt(left: Re, right: Re)
    | Opt(body: Re)
    | Star(body: Re)
    | Plus(body: Re)

  // A place where a word can be cut in two.
  predicate Cut(w: Word, i: int) {
    0 <= i <= |w|
  }

  // The word is in the language of the expression.
  ghost predicate In(re: Re, w: Word)
    decreases re, 0, |w|
  {
    match re
    case One(a) => |w| == 1 && Fits(a, w[0])
    case Cat(l, r) => exists i {:trigger Cut(w, i)} :: Cut(w, i) && In(l, w[..i]) && In(r, w[i..])
    case Alt(l, r) => In(l, w) || In(r, w)
    case Opt(b) => w == [] || In(b, w)
    case Star(b) => Many(b, w)
    case Plus(b) => exists i {:trigger Cut(w, i)} :: Cut(w, i) && In(b, w[..i]) && Many(b, w[i..])
  }

  // The word is a concatenation of any number of words of the language.
  ghost predicate Many(b: Re, w: Word)
    decreases b, 1, |w|
  {
    w == [] || exists i {:trigger Cut(w, i)} :: Cut(w, i) && i > 0 && In(b, w[..i]) && Many(b, w[i..])
  }

  // The language contains the empty word.
  predicate Nullable(re: Re) {
    match re
    case One(_) => false
    case Cat(l, r) => Nullable(l) && Nullable(r)
    case Alt(l, r) => Nullable(l) || Nullable(r)
    case Opt(_) => true
    case Star(_) => true
    case Plus(b) => Nullable(b)
  }

  // No body that is repeated without bound matches the empty word.
  predicate Tame(re: Re) {
    match re
    case One(_) => true
    case Cat(l, r) => Tame(l) && Tame(r)
    case Alt(l, r) => Tame(l) && Tame(r)
    case Opt(b) => Tame(b)
    case Star(b) => Tame(b) && !Nullable(b)
    case Plus(b) => Tame(b) && !Nullable(b)
  }

  lemma {:induction false} NullableIs(re: Re)
    ensures Nullable(re) <==> In(re, [])
  {
    var e: Word := [];
    assert Cut(e, 0) && e[..0] == e && e[0..] == e;
    match re
    case One(_) =>
    case Cat(l, r) => NullableIs(l); NullableIs(r);
    case Alt(l, r) => NullableIs(l); NullableIs(r);
    case Opt(_) =>
    case Star(_) =>
    case Plus(b) => NullableIs(b);
  }

  // Concatenation and repetition

  lemma {:induction false} InCat(l: Re, r: Re, u: Word, v: Word)
    requires In(l, u) && In(r, v)
    ensures In(Cat(l, r), u + v)
  {
    assert Cut(u + v, |u|) && (u + v)[..|u|] == u && (u + v)[|u|..] == v;
  }

  lemma {:induction false} InMany(b: Re, u: Word, v: Word)
    requires In(b, u) && Many(b, v)
    ensures Many(b, u + v)
  {
    if u == [] {
      assert u + v == v;
    } else {
      assert Cut(u + v, |u|) && (u + v)[..|u|] == u && (u + v)[|u|..] == v;
    }
  }

  // Exactly k words of the language, one after the other.
  ghost predicate Times(re: Re, k: nat, w: Word) {
    if k == 0 then w == [] else exists i {:trigger Cut(w, i)} :: Cut(w, i) && In(re, w[..i]) && Times(re, k - 1, w[i..])
  }

  // The bounds of a counted repetition; there may be no upper one.
  datatype Bound = Finite(m: nat) | Infinite

  predicate AtMost(k: nat, m: Bound) {
    m.Infinite? || k <= m.m
  }

  // `k` copies of `a` before `z`.
  function Repeat(a: Re, k: nat, z: Re): Re {
    if k == 0 then z else Cat(a, Repeat(a, k - 1, z))
  }

  // What a counted repetition is compiled to; zero times is not supported.
  function Expand(re: Re, n: nat, m: Bound): Re
    requires AtMost(n, m) && m != Finite(0)
  {
    match m
    case Infinite => if n == 0 then Star(re) else Repeat(re, n - 1, Plus(re))
    case Finite(top) =>
      if n == 0 then Repeat(Opt(re), top - 1, Opt(re))
      else if top == n then Repeat(re, n - 1, re)
      else Repeat(re, n, Repeat(Opt(re), top - n - 1, Opt(re)))
  }

  // Counted repetition means what it says: from n to m words of the language, one after the other.
  lemma {:induction false} ExpandMeans(re: Re, n: nat, m: Bound, w: Word)
    requires AtMost(n, m) && m != Finite(0)
    ensures In(Expand(re, n, m), w) <==> exists k :: n <= k && AtMost(k, m) && Times(re, k, w)
  {
    if In(Expand(re, n, m), w) {
      var k := ExpandOut(re, n, m, w);
    }
    if k :| n <= k && AtMost(k, m) && Times(re, k, w) {
      ExpandIn(re, n, m, k, w);
    }
  }

  lemma Slices(w: Word, i: nat, j: nat)
    requires i <= j <= |w|
    ensures w == w[..i] + w[i..] && w[i..][j - i..] == w[j..] && w[..j] == w[..i] + w[i..][..j - i]
  {
  }

  lemma {:induction false} TimesOne(re: Re, w: Word)
    ensures Times(re, 1, w) <==> In(re, w)
  {
    assert Cut(w, |w|) && w[..|w|] == w;
    if Times(re, 1, w) {
      var i :| Cut(w, i) && In(re, w[..i]) && Times(re, 0, w[i..]);
    }
  }

  lemma {:induction false} TimesAdd(re: Re, j: nat, k: nat, u: Word, v: Word)
    requires Times(re, j, u) && Times(re, k, v)
    ensures Times(re, j + k, u + v)
  {
    if j == 0 {
      assert u + v == v;
    } else {
      var i :| Cut(u, i) && In(re, u[..i]) && Times(re, j - 1, u[i..]);
      TimesAdd(re, j - 1, k, u[i..], v);
      assert Cut(u + v, i) && (u + v)[..i] == u[..i] && (u + v)[i..] == u[i..] + v;
    }
  }

  lemma {:induction false} RepeatIn(a: Re, k: nat, z: Re, u: Word, v: Word)
    requires Times(a, k, u) && In(z, v)
    ensures In(Repeat(a, k, z), u + v)
  {
    if k == 0 {
      assert u + v == v;
    } else {
      var i :| Cut(u, i) && In(a, u[..i]) && Times(a, k - 1, u[i..]);
      RepeatIn(a, k - 1, z, u[i..], v);
      assert Cut(u + v, i) && (u + v)[..i] == u[..i] && (u + v)[i..] == u[i..] + v;
    }
  }

  lemma {:induction false} RepeatOut(a: Re, k: nat, z: Re, w: Word) returns (j: nat)
    requires In(Repeat(a, k, z), w)
    ensures j <= |w| && Times(a, k, w[..j]) && In(z, w[j..])
  {
    if k == 0 {
      j := 0;
      assert w[0..] == w;
    } else {
      var i :| Cut(w, i) && In(a, w[..i]) && In(Repeat(a, k - 1, z), w[i..]);
      var h := RepeatOut(a, k - 1, z, w[i..]);
      j := i + h;
      Slices(w, i, j);
      assert Cut(w[..j], i) && w[..j][..i] == w[..i] && w[..j][i..] == w[i..][..h];
    }
  }

  lemma {:induction false} ManyOut(b: Re, w: Word) returns (k: nat)
    requires Many(b, w)
    ensures Times(b, k, w)
    decreases |w|
  {
    k := 0;
    if w != [] {
      var i :| Cut(w, i) && i > 0 && In(b, w[..i]) && Many(b, w[i..]);
      k := ManyOut(b, w[i..]);
      k := k + 1;
    }
  }

  lemma {:induction false} ManyIn(b: Re, k: nat, w: Word)
    requires Times(b, k, w)
    ensures Many(b, w)
  {
    if k > 0 {
      var i :| Cut(w, i) && In(b, w[..i]) && Times(b, k - 1, w[i..]);
      ManyIn(b, k - 1, w[i..]);
      InMany(b, w[..i], w[i..]);
      Slices(w, i, |w|);
    }
  }

  lemma {:induction false} OptionalIn(re: Re, j: nat, k: nat, w: Word)
    requires k <= j + 1 && Times(re, k, w)
    ensures In(Repeat(Opt(re), j, Opt(re)), w)
  {
    if j == 0 {
      if k == 1 {
        TimesOne(re, w);
      }
    } else {
      if k == 0 {
        OptionalIn(re, j - 1, 0, w);
        InCat(Opt(re), Repeat(Opt(re), j - 1, Opt(re)), [], w);
        assert [] + w == w;
      } else {
        var i :| Cut(w, i) && In(re, w[..i]) && Times(re, k - 1, w[i..]);
        OptionalIn(re, j - 1, k - 1, w[i..]);
        InCat(Opt(re), Repeat(Opt(re), j - 1, Opt(re)), w[..i], w[i..]);
        Slices(w, i, |w|);
      }
    }
  }

  lemma {:induction false} OptionalOut(re: Re, j: nat, w: Word) returns (k: nat)
    requires In(Repeat(Opt(re), j, Opt(re)), w)
    ensures k <= j + 1 && Times(re, k, w)
  {
    if j == 0 {
      k := 0;
      if w != [] {
        TimesOne(re, w);
        k := 1;
      }
    } else {
      var i :| Cut(w, i) && In(Opt(re), w[..i]) && In(Repeat(Opt(re), j - 1, Opt(re)), w[i..]);
      k := OptionalOut(re, j - 1, w[i..]);
      if i == 0 {
        assert w[0..] == w;
      } else {
        k := k + 1;
      }
    }
  }

  lemma {:induction false} TimesCons(re: Re, k: nat, w: Word, i: int)
    requires Cut(w, i) && In(re, w[..i]) && Times(re, k, w[i..])
    ensures Times(re, k + 1, w)
  {
  }

  lemma {:induction false} PlusOut(re: Re, w: Word) returns (k: nat)
    requires In(Plus(re), w)
    ensures k >= 1 && Times(re, k, w)
  {
    var i :| Cut(w, i) && In(re, w[..i]) && Many(re, w[i..]);
    k := ManyOut(re, w[i..]);
    TimesCons(re, k, w, i);
    k := k + 1;
  }

  lemma {:induction false} PlusIn(re: Re, k: nat, w: Word)
    requires k >= 1 && Times(re, k, w)
    ensures In(Plus(re), w)
  {
    var i :| Cut(w, i) && In(re, w[..i]) && Times(re, k - 1, w[i..]);
    ManyIn(re, k - 1, w[i..]);
    assert Cut(w, i);
  }

  lemma {:induction false} TimesJoin(re: Re, n: nat, k: nat, w: Word, j: nat)
    requires j <= |w| && Times(re, n, w[..j]) && Times(re, k, w[j..])
    ensures Times(re, n + k, w)
  {
    TimesAdd(re, n, k, w[..j], w[j..]);
    Slices(w, j, |w|);
  }

  lemma {:induction false} RepeatJoin(a: Re, k: nat, z: Re, w: Word, j: nat)
    requires j <= |w| && Times(a, k, w[..j]) && In(z, w[j..])
    ensures In(Repeat(a, k, z), w)
  {
    RepeatIn(a, k, z, w[..j], w[j..]);
    Slices(w, j, |w|);
  }

  lemma {:induction false} ExpandOut(re: Re, n: nat, m: Bound, w: Word) returns (k: nat)
    requires AtMost(n, m) && m != Finite(0) && In(Expand(re, n, m), w)
    ensures n <= k && AtMost(k, m) && Times(re, k, w)
  {
    if m.Infinite? && n == 0 {
      k := ManyOut(re, w);
    } else if m.Infinite? {
      var j := RepeatOut(re, n - 1, Plus(re), w);
      k := PlusOut(re, w[j..]);
      TimesJoin(re, n - 1, k, w, j);
      k := n - 1 + k;
    } else if n == 0 {
      k := OptionalOut(re, m.m - 1, w);
    } else if m.m == n {
      var j := RepeatOut(re, n - 1, re, w);
      TimesOne(re, w[j..]);
      TimesJoin(re, n - 1, 1, w, j);
      k := n;
    } else {
      var z := Repeat(Opt(re), m.m - n - 1, Opt(re));
      var j := RepeatOut(re, n, z, w);
      k := OptionalOut(re, m.m - n - 1, w[j..]);
      TimesJoin(re, n, k, w, j);
      k := n + k;
    }
  }

  // The first `n` of `k` words.
  lemma {:induction false} TimesFirst(re: Re, n: nat, k: nat, w: Word) returns (j: nat)
    requires n <= k && Times(re, k, w)
    ensures j <= |w| && Times(re, n, w[..j]) && Times(re, k - n, w[j..])
  {
    j := 0;
    if n == 0 {
      assert w[0..] == w;
    } else {
      var i :| Cut(w, i) && In(re, w[..i]) && Times(re, k - 1, w[i..]);
      var h := TimesFirst(re, n - 1, k - 1, w[i..]);
      j := i + h;
      Slices(w, i, j);
      assert Cut(w[..j], i) && w[..j][..i] == w[..i] && w[..j][i..] == w[i..][..h];
    }
  }

  lemma {:induction false} AtLeastIn(re: Re, n: nat, k: nat, w: Word)
    requires n < k && Times(re, k, w)
    ensures In(Repeat(re, n, Plus(re)), w)
  {
    var j := TimesFirst(re, n, k, w);
    PlusIn(re, k - n, w[j..]);
    RepeatJoin(re, n, Plus(re), w, j);
  }

  lemma {:induction false} ExactlyIn(re: Re, n: nat, w: Word)
    requires 0 < n && Times(re, n, w)
    ensures In(Repeat(re, n - 1, re), w)
  {
    var j := TimesFirst(re, n - 1, n, w);
    TimesOne(re, w[j..]);
    RepeatJoin(re, n - 1, re, w, j);
  }

  lemma {:induction false} BetweenIn(re: Re, n: nat, m: nat, k: nat, w: Word)
    requires n <= k <= m && n < m && Times(re, k, w)
    ensures In(Repeat(re, n, Repeat(Opt(re), m - n - 1, Opt(re))), w)
  {
    var j := TimesFirst(re, n, k, w);
    OptionalIn(re, m - n - 1, k - n, w[j..]);
    RepeatJoin(re, n, Repeat(Opt(re), m - n - 1, Opt(re)), w, j);
  }

  lemma {:induction false} ExpandIn(re: Re, n: nat, m: Bound, k: nat, w: Word)
    requires AtMost(n, m) && m != Finite(0) && n <= k && AtMost(k, m) && Times(re, k, w)
    ensures In(Expand(re, n, m), w)
  {
    if m.Infinite? && n == 0 {
      ManyIn(re, k, w);
    } else if m.Infinite? {
      AtLeastIn(re, n - 1, k, w);
    } else if n == 0 {
      OptionalIn(re, m.m - 1, k, w);
    } else if m.m == n {
      ExactlyIn(re, n, w);
    } else {
      BetweenIn(re, n, m.m, k, w);
    }
  }
}
