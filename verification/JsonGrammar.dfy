/** The two parsers of the reader as functions: recursive descent, and a pushdown automaton driven
    by a transition table. Both report the same events and accept the same texts. */
module JsonGrammar {
  import opened Serial
  import opened JsonText

  // The events reported so far, whether the text is accepted so far, and what is left of it.
  datatype Outcome = Outcome(events: seq<Event>, ok: bool, rest: Bytes)

  const FAIL := Outcome([], false, [])

  function Then(events: seq<Event>, o: Outcome): Outcome {
    o.(events := events + o.events)
  }

  // Recursive descent

  function Name(s: Bytes, name: Bytes, e: Event): Outcome {
    if name <= s then Outcome([e], true, s[|name|..]) else FAIL
  }

  function Quoted(s: Bytes, key: bool): Outcome
    requires s != []
  {
    match Chars(s[1..])
    case BadString => FAIL
    case Decoded(text, rest) => Outcome([if key then Key(text) else String(text)], true, rest)
  }

  // A value other than an object or an array.
  function Scalar(f: Flags, s: Bytes): (o: Outcome)
    ensures o.ok ==> |o.rest| < |s|
  {
    var c := Peek(s);
    if c == 110 then Name(s, Text("null"), Null)
    else if c == 116 then Name(s, Text("true"), Bool(true))
    else if c == 102 then Name(s, Text("false"), Bool(false))
    else if c == QUOTE then Quoted(s, false)
    else
      match Number(f, s)
      case BadNumber => FAIL
      case Scanned(e, rest) => Outcome([e], true, rest)
  }

  function Value(f: Flags, s: Bytes): (o: Outcome)
    ensures o.ok ==> |o.rest| < |s|
    decreases |s|, 1
  {
    if Peek(s) == LBRACE then Then([StartObject], Object(f, s[1..]))
    else if Peek(s) == LBRACKET then Then([StartArray], Array(f, s[1..]))
    else Scalar(f, s)
  }

  // An object after its opening brace.
  function Object(f: Flags, s: Bytes): (o: Outcome)
    ensures o.ok ==> |o.rest| < |s|
    decreases |s|, 3
  {
    match Skip(f, s)
    case Unclosed => FAIL
    case Skipped(r) => if Peek(r) == RBRACE then Outcome([EndObject(0)], true, r[1..]) else Members(f, r, 0)
  }

  // The members of an object from a key on; `n` members are complete.
  function Members(f: Flags, s: Bytes, n: U32): (o: Outcome)
    ensures o.ok ==> |o.rest| < |s|
    decreases |s|, 2
  {
    if Peek(s) != QUOTE then FAIL
    else
      var key := Quoted(s, true);
      if !key.ok then FAIL else Then(key.events, AfterKey(f, key.rest, n))
  }

  function AfterKey(f: Flags, s: Bytes, n: U32): (o: Outcome)
    ensures o.ok ==> |o.rest| < |s|
    decreases |s|, 2
  {
    match Skip(f, s)
    case Unclosed => FAIL
    case Skipped(r) =>
      if Peek(r) != COLON then FAIL
      else
        match Skip(f, r[1..])
        case Unclosed => FAIL
        case Skipped(t) =>
          var v := Value(f, t);
          if !v.ok then v else Then(v.events, AfterMember(f, v.rest, Add(n, 1)))
  }

  function AfterMember(f: Flags, s: Bytes, n: U32): (o: Outcome)
    ensures o.ok ==> |o.rest| < |s|
    decreases |s|, 2
  {
    match Skip(f, s)
    case Unclosed => FAIL
    case Skipped(r) =>
      if Peek(r) == COMMA then
        match Skip(f, r[1..])
        case Unclosed => FAIL
        case Skipped(t) =>
          if f.trailingCommas && Peek(t) == RBRACE then Outcome([EndObject(n)], true, t[1..]) else Members(f, t, n)
      else if Peek(r) == RBRACE then Outcome([EndObject(n)], true, r[1..])
      else FAIL
  }

  // An array after its opening bracket.
  function Array(f: Flags, s: Bytes): (o: Outcome)
    ensures o.ok ==> |o.rest| < |s|
    decreases |s|, 3
  {
    match Skip(f, s)
    case Unclosed => FAIL
    case Skipped(r) => if Peek(r) == RBRACKET then Outcome([EndArray(0)], true, r[1..]) else Elements(f, r, 0)
  }

  function Elements(f: Flags, s: Bytes, n: U32): (o: Outcome)
    ensures o.ok ==> |o.rest| < |s|
    decreases |s|, 2
  {
    var v := Value(f, s);
    if !v.ok then v else Then(v.events, AfterElement(f, v.rest, Add(n, 1)))
  }

  function AfterElement(f: Flags, s: Bytes, n: U32): (o: Outcome)
    ensures o.ok ==> |o.rest| < |s|
    decreases |s|, 2
  {
    match Skip(f, s)
    case Unclosed => FAIL
    case Skipped(r) =>
      if Peek(r) == COMMA then
        match Skip(f, r[1..])
        case Unclosed => FAIL
        case Skipped(t) =>
          if f.trailingCommas && Peek(t) == RBRACKET then Outcome([EndArray(n)], true, t[1..]) else Elements(f, t, n)
      else if Peek(r) == RBRACKET then Outcome([EndArray(n)], true, r[1..])
      else FAIL
  }

  // Nothing but space and comments may follow the root.
  function AtEnd(f: Flags, s: Bytes): Outcome {
    if f.stopWhenDone then Outcome([], true, s)
    else
      match Skip(f, s)
      case Unclosed => FAIL
      case Skipped(r) => if Peek(r) == 0 then Outcome([], true, r) else FAIL
  }

  // The recursive parser on a whole text.
  function Recursive(f: Flags, s: Bytes): Outcome {
    match Skip(f, s)
    case Unclosed => FAIL
    case Skipped(r) =>
      if Peek(r) == 0 then FAIL
      else
        var v := Value(f, r);
        if !v.ok then v else Then(v.events, AtEnd(f, v.rest))
  }

  // The pushdown automaton

  datatype State =
    | Start | Finish | Error
    | ObjectInitial | MemberKey | KeyValueDelimiter | MemberValue | MemberDelimiter | ObjectFinish
    | ArrayInitial | Element | ElementDelimiter | ArrayFinish
    | Single

  datatype Token =
    | LeftBracket | RightBracket | LeftCurlyBracket | RightCurlyBracket | Comma | Colon
    | StringToken | FalseToken | TrueToken | NullToken | NumberToken

  function Tokenize(c: Byte): Token {
    if c == LBRACKET then LeftBracket
    else if c == RBRACKET then RightBracket
    else if c == LBRACE then LeftCurlyBracket
    else if c == RBRACE then RightCurlyBracket
    else if c == COMMA then Comma
    else if c == COLON then Colon
    else if c == QUOTE then StringToken
    else if c == 102 then FalseToken
    else if c == 116 then TrueToken
    else if c == 110 then NullToken
    else NumberToken
  }

  predicate IsScalar(t: Token) {
    t.StringToken? || t.FalseToken? || t.TrueToken? || t.NullToken? || t.NumberToken?
  }

  // The transition table: where a state wants to go on a token.
  function Predict(src: State, t: Token): State {
    match src
    case Start =>
      if t.LeftBracket? then ArrayInitial else if t.LeftCurlyBracket? then ObjectInitial
      else if IsScalar(t) then Single else Error
    case ObjectInitial => if t.RightCurlyBracket? then ObjectFinish else if t.StringToken? then MemberKey else Error
    case MemberKey => if t.Colon? then KeyValueDelimiter else Error
    case KeyValueDelimiter =>
      if t.LeftBracket? then ArrayInitial else if t.LeftCurlyBracket? then ObjectInitial
      else if IsScalar(t) then MemberValue else Error
    case MemberValue => if t.RightCurlyBracket? then ObjectFinish else if t.Comma? then MemberDelimiter else Error
    case MemberDelimiter => if t.RightCurlyBracket? then ObjectFinish else if t.StringToken? then MemberKey else Error
    case ArrayInitial =>
      if t.LeftBracket? then ArrayInitial else if t.RightBracket? then ArrayFinish
      else if t.LeftCurlyBracket? then ObjectInitial else if IsScalar(t) then Element else Error
    case Element => if t.RightBracket? then ArrayFinish else if t.Comma? then ElementDelimiter else Error
    case ElementDelimiter =>
      if t.LeftBracket? then ArrayInitial else if t.RightBracket? then ArrayFinish
      else if t.LeftCurlyBracket? then ObjectInitial else if IsScalar(t) then Element else Error
    case _ => Error
  }

  // An open object or array: the state to resume when it is closed, and its count so far.
  datatype Frame = Frame(resume: State, count: U32)

  datatype Move = Move(state: State, stack: seq<Frame>, rest: Bytes, events: seq<Event>)

  // The state to resume after an object or array that opens in `src`.
  function ResumeOf(src: State): State {
    match src
    case ArrayInitial => Element
    case ElementDelimiter => Element
    case KeyValueDelimiter => MemberValue
    case _ => src
  }

  function Resumed(n: State): State {
    if n.Start? then Finish else n
  }

  function Stuck(stack: seq<Frame>, s: Bytes): Move {
    Move(Error, stack, s, [])
  }

  // One transition, taken with the text at the token. The stack has its top first.
  function Transit(f: Flags, src: State, dst: State, stack: seq<Frame>, s: Bytes): (m: Move)
    requires s != []
    ensures !m.state.Error? ==> |m.rest| < |s|
  {
    match dst
    case ObjectInitial => Move(dst, [Frame(ResumeOf(src), 0)] + stack, s[1..], [StartObject])
    case ArrayInitial => Move(dst, [Frame(ResumeOf(src), 0)] + stack, s[1..], [StartArray])
    case MemberKey =>
      var key := Quoted(s, true);
      if key.ok then Move(dst, stack, key.rest, key.events) else Stuck(stack, s)
    case KeyValueDelimiter => Move(dst, stack, s[1..], [])
    case MemberDelimiter => Counted(dst, stack, s)
    case ElementDelimiter => Counted(dst, stack, s)
    case ObjectFinish =>
      if stack == [] || (!f.trailingCommas && src.MemberDelimiter?) then Stuck(stack, s)
      else
        var c := if src.MemberValue? then Add(stack[0].count, 1) else stack[0].count;
        Move(Resumed(stack[0].resume), stack[1..], s[1..], [EndObject(c)])
    case ArrayFinish =>
      if stack == [] || (!f.trailingCommas && src.ElementDelimiter?) then Stuck(stack, s)
      else
        var c := if src.Element? then Add(stack[0].count, 1) else stack[0].count;
        Move(Resumed(stack[0].resume), stack[1..], s[1..], [EndArray(c)])
    case MemberValue => Valued(f, dst, stack, s)
    case Element => Valued(f, dst, stack, s)
    case Single => Valued(f, Finish, stack, s)
    case _ => Stuck(stack, s)
  }

  function Counted(dst: State, stack: seq<Frame>, s: Bytes): Move
    requires s != []
  {
    if stack == [] then Stuck(stack, s)
    else Move(dst, [stack[0].(count := Add(stack[0].count, 1))] + stack[1..], s[1..], [])
  }

  function Valued(f: Flags, dst: State, stack: seq<Frame>, s: Bytes): (m: Move)
    requires s != []
    ensures !m.state.Error? ==> |m.rest| < |s|
  {
    var v := Value(f, s);
    if v.ok then Move(dst, stack, v.rest, v.events) else Stuck(stack, s)
  }

  // The loop of the iterative parser, from the test of the end of the text on.
  function Loop(f: Flags, st: State, stack: seq<Frame>, s: Bytes): (o: Outcome)
    decreases |s|, 0
  {
    if Peek(s) == 0 then (if st.Finish? then Outcome([], true, s) else FAIL)
    else
      var m := Transit(f, st, Predict(st, Tokenize(s[0])), stack, s);
      if m.state.Error? then FAIL else Then(m.events, Continue(f, m.state, m.stack, m.rest))
  }

  // The rest of a round of the loop, and all later rounds.
  function Continue(f: Flags, st: State, stack: seq<Frame>, s: Bytes): (o: Outcome)
    decreases |s|, 1
  {
    if f.stopWhenDone && st.Finish? then Outcome([], true, s)
    else
      match Skip(f, s)
      case Unclosed => FAIL
      case Skipped(r) => Loop(f, st, stack, r)
  }

  // The iterative parser on a whole text.
  function Iterative(f: Flags, s: Bytes): Outcome {
    match Skip(f, s)
    case Unclosed => FAIL
    case Skipped(r) => Loop(f, Start, [], r)
  }

  // The two agree

  // What the automaton does after a part of the text that the recursive parser takes as `o`.
  function Bind(o: Outcome, f: Flags, st: State, stack: seq<Frame>): Outcome {
    if o.ok then Then(o.events, Continue(f, st, stack, o.rest)) else o
  }

  lemma BindThen(events: seq<Event>, o: Outcome, f: Flags, st: State, stack: seq<Frame>)
    ensures Bind(Then(events, o), f, st, stack) == Then(events, Bind(o, f, st, stack))
  {
    if o.ok {
      var c := Continue(f, st, stack, o.rest);
      assert events + o.events + c.events == events + (o.events + c.events);
    }
  }

  // No number starts with punctuation or at the end of the text.
  lemma NoNumber(f: Flags, s: Bytes)
    requires var c := Peek(s); c == COMMA || c == COLON || c == RBRACKET || c == RBRACE || c == 0
    ensures Number(f, s) == BadNumber
  {
  }

  predicate BeforeValue(st: State) {
    st.Start? || st.KeyValueDelimiter? || st.ArrayInitial? || st.ElementDelimiter?
  }

  predicate InObject(st: State) {
    st.ObjectInitial? || st.MemberDelimiter?
  }

  predicate InArray(st: State) {
    st.ArrayInitial? || st.ElementDelimiter?
  }

  predicate Resumable(n: State) {
    n.Start? || n.MemberValue? || n.Element?
  }

  // A refused value that is not an object or an array reports nothing.
  lemma ScalarFails(f: Flags, s: Bytes)
    requires Peek(s) != LBRACE && Peek(s) != LBRACKET
    ensures !Value(f, s).ok ==> Value(f, s) == FAIL
  {
    hide Number, Text;
  }

  lemma {:induction false} ScalarAgrees(f: Flags, st: State, stack: seq<Frame>, s: Bytes)
    requires BeforeValue(st) && s != [] && s[0] != 0 && IsScalar(Tokenize(s[0]))
    ensures Loop(f, st, stack, s) == Bind(Value(f, s), f, Resumed(ResumeOf(st)), stack)
  {
    hide Skip, Value;
    ScalarFails(f, s);
    assert Transit(f, st, Predict(st, Tokenize(s[0])), stack, s) == Valued(f, Resumed(ResumeOf(st)), stack, s);
  }

  lemma {:induction false} PunctuationAgrees(f: Flags, st: State, stack: seq<Frame>, s: Bytes)
    requires BeforeValue(st) && !(InArray(st) && Peek(s) == RBRACKET)
    requires var c := Peek(s); c == COMMA || c == COLON || c == RBRACKET || c == RBRACE || c == 0
    ensures Loop(f, st, stack, s) == Value(f, s) == FAIL
  {
    NoNumber(f, s);
  }

  // A value: the automaton passes it as the recursive parser does.
  lemma {:induction false} ValueAgrees(f: Flags, st: State, stack: seq<Frame>, s: Bytes)
    requires BeforeValue(st) && !(InArray(st) && Peek(s) == RBRACKET)
    ensures Loop(f, st, stack, s) == Bind(Value(f, s), f, Resumed(ResumeOf(st)), stack)
    decreases |s|, 1
  {
    var c := Peek(s);
    if c == LBRACE {
      ObjectAgrees(f, ResumeOf(st), stack, s[1..]);
      BindThen([StartObject], Object(f, s[1..]), f, Resumed(ResumeOf(st)), stack);
    } else if c == LBRACKET {
      ArrayAgrees(f, ResumeOf(st), stack, s[1..]);
      BindThen([StartArray], Array(f, s[1..]), f, Resumed(ResumeOf(st)), stack);
    } else if c == COMMA || c == COLON || c == RBRACKET || c == RBRACE || c == 0 {
      PunctuationAgrees(f, st, stack, s);
    } else {
      ScalarAgrees(f, st, stack, s);
    }
  }

  lemma {:induction false} ObjectAgrees(f: Flags, n: State, stack: seq<Frame>, s: Bytes)
    requires Resumable(n)
    ensures Continue(f, ObjectInitial, [Frame(n, 0)] + stack, s) == Bind(Object(f, s), f, Resumed(n), stack)
    decreases |s|, 3
  {
    match Skip(f, s)
    case Unclosed =>
    case Skipped(r) =>
      if Peek(r) != RBRACE {
        MembersAgree(f, ObjectInitial, n, 0, stack, r);
      } else {
        assert ([Frame(n, 0)] + stack)[1..] == stack;
      }
  }

  lemma {:induction false} MembersAgree(f: Flags, st: State, n: State, c: U32, stack: seq<Frame>, s: Bytes)
    requires Resumable(n) && InObject(st) && (Peek(s) == RBRACE ==> st.MemberDelimiter? && !f.trailingCommas)
    ensures Loop(f, st, [Frame(n, c)] + stack, s) == Bind(Members(f, s, c), f, Resumed(n), stack)
    decreases |s|, 2
  {
    hide Skip, Value, AfterKey, Valued;
    if Peek(s) == QUOTE {
      var key := Quoted(s, true);
      if key.ok {
        AfterKeyAgrees(f, n, c, stack, key.rest);
        BindThen(key.events, AfterKey(f, key.rest, c), f, Resumed(n), stack);
      }
    }
  }

  lemma {:induction false} AfterKeyAgrees(f: Flags, n: State, c: U32, stack: seq<Frame>, s: Bytes)
    requires Resumable(n)
    ensures Continue(f, MemberKey, [Frame(n, c)] + stack, s) == Bind(AfterKey(f, s, c), f, Resumed(n), stack)
    decreases |s|, 2
  {
    hide Skip, Value, AfterMember, Quoted, Valued;
    var k := [Frame(n, c)] + stack;
    match Skip(f, s)
    case Unclosed =>
    case Skipped(r) =>
      if Peek(r) == COLON {
        assert Loop(f, MemberKey, k, r) == Then([], Continue(f, KeyValueDelimiter, k, r[1..]));
        match Skip(f, r[1..])
        case Unclosed =>
          assert Continue(f, KeyValueDelimiter, k, r[1..]) == FAIL;
        case Skipped(t) =>
          assert Continue(f, KeyValueDelimiter, k, r[1..]) == Loop(f, KeyValueDelimiter, k, t);
          ValueAgrees(f, KeyValueDelimiter, k, t);
          var v := Value(f, t);
          if v.ok {
            AfterMemberAgrees(f, n, c, stack, v.rest);
            BindThen(v.events, AfterMember(f, v.rest, Add(c, 1)), f, Resumed(n), stack);
          }
      }
  }

  lemma {:induction false} AfterMemberAgrees(f: Flags, n: State, c: U32, stack: seq<Frame>, s: Bytes)
    requires Resumable(n)
    ensures Continue(f, MemberValue, [Frame(n, c)] + stack, s) ==
      Bind(AfterMember(f, s, Add(c, 1)), f, Resumed(n), stack)
    decreases |s|, 2
  {
    hide Skip, Value, Members, Quoted, Valued;
    var k, d := [Frame(n, c)] + stack, [Frame(n, Add(c, 1))] + stack;
    assert k[1..] == stack && d[1..] == stack;
    match Skip(f, s)
    case Unclosed =>
    case Skipped(r) =>
      if Peek(r) == COMMA {
        assert Loop(f, MemberValue, k, r) == Then([], Continue(f, MemberDelimiter, d, r[1..]));
        match Skip(f, r[1..])
        case Unclosed =>
          assert Continue(f, MemberDelimiter, d, r[1..]) == FAIL;
        case Skipped(t) =>
          assert Continue(f, MemberDelimiter, d, r[1..]) == Loop(f, MemberDelimiter, d, t);
          if f.trailingCommas && Peek(t) == RBRACE {
          } else {
            MembersAgree(f, MemberDelimiter, n, Add(c, 1), stack, t);
          }
      }
  }

  lemma {:induction false} ArrayAgrees(f: Flags, n: State, stack: seq<Frame>, s: Bytes)
    requires Resumable(n)
    ensures Continue(f, ArrayInitial, [Frame(n, 0)] + stack, s) == Bind(Array(f, s), f, Resumed(n), stack)
    decreases |s|, 3
  {
    match Skip(f, s)
    case Unclosed =>
    case Skipped(r) =>
      if Peek(r) != RBRACKET {
        ElementsAgree(f, ArrayInitial, n, 0, stack, r);
      } else {
        assert ([Frame(n, 0)] + stack)[1..] == stack;
      }
  }

  lemma {:induction false} ElementsAgree(f: Flags, st: State, n: State, c: U32, stack: seq<Frame>, s: Bytes)
    requires Resumable(n) && InArray(st) && (Peek(s) == RBRACKET ==> st.ElementDelimiter? && !f.trailingCommas)
    ensures Loop(f, st, [Frame(n, c)] + stack, s) == Bind(Elements(f, s, c), f, Resumed(n), stack)
    decreases |s|, 2
  {
    var k := [Frame(n, c)] + stack;
    if Peek(s) == RBRACKET {
      NoNumber(f, s);
    } else {
      ValueAgrees(f, st, k, s);
      var v := Value(f, s);
      if v.ok {
        AfterElementAgrees(f, n, c, stack, v.rest);
        BindThen(v.events, AfterElement(f, v.rest, Add(c, 1)), f, Resumed(n), stack);
      }
    }
  }

  lemma {:induction false} AfterElementAgrees(f: Flags, n: State, c: U32, stack: seq<Frame>, s: Bytes)
    requires Resumable(n)
    ensures Continue(f, Element, [Frame(n, c)] + stack, s) == Bind(AfterElement(f, s, Add(c, 1)), f, Resumed(n), stack)
    decreases |s|, 2
  {
    hide Skip, Value, Elements, Quoted, Valued;
    var k, d := [Frame(n, c)] + stack, [Frame(n, Add(c, 1))] + stack;
    assert k[1..] == stack && d[1..] == stack;
    match Skip(f, s)
    case Unclosed =>
    case Skipped(r) =>
      if Peek(r) == COMMA {
        assert Loop(f, Element, k, r) == Then([], Continue(f, ElementDelimiter, d, r[1..]));
        match Skip(f, r[1..])
        case Unclosed =>
          assert Continue(f, ElementDelimiter, d, r[1..]) == FAIL;
        case Skipped(t) =>
          assert Continue(f, ElementDelimiter, d, r[1..]) == Loop(f, ElementDelimiter, d, t);
          if f.trailingCommas && Peek(t) == RBRACKET {
          } else {
            ElementsAgree(f, ElementDelimiter, n, Add(c, 1), stack, t);
          }
      }
  }

  // For every text and every choice of flags, both parsers accept or refuse alike, report the same
  // events in the same order, with the same counts, and leave the same rest of the text.
  lemma {:induction false} ParsersAgree(f: Flags, s: Bytes)
    ensures Iterative(f, s) == Recursive(f, s)
  {
    match Skip(f, s)
    case Unclosed =>
    case Skipped(r) =>
      if Peek(r) != 0 {
        ValueAgrees(f, Start, [], r);
        var v := Value(f, r);
        if v.ok {
          EndAgrees(f, v.rest);
        }
      }
  }

  lemma {:induction false} EndAgrees(f: Flags, s: Bytes)
    ensures Continue(f, Finish, [], s) == AtEnd(f, s)
  {
  }
}
