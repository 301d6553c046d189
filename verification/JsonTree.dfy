/** Writing and reading back: the text that the writer makes of a well-nested sequence of events,
    and the proof that the reader reports the same events. */
module JsonTree {
  import opened Sequences
  import opened Serial
  import opened JsonText
  import opened JsonGrammar
  import opened Itoa
  import Strings = JsonStrings

  // The writer as a function

  // An open array or object, and how many values (names included) it has so far.
  datatype Level = Level(inArray: bool, valueCount: nat)

  // The writer: its output, its open levels with the innermost first, and whether it has a root.
  datatype Written = Written(os: Bytes, levels: seq<Level>, hasRoot: bool)

  function Put(w: Written, b: Bytes): Written {
    w.(os := w.os + b)
  }

  // What goes before a value: a comma or a colon, by the count of the innermost level.
  function Separator(l: Level): Bytes {
    if l.valueCount == 0 then []
    else if l.inArray || l.valueCount % 2 == 0 then [COMMA]
    else [COLON]
  }

  function Prefixed(w: Written): Written {
    if w.levels == [] then w.(hasRoot := true)
    else
      var l := w.levels[0];
      Written(w.os + Separator(l), [l.(valueCount := l.valueCount + 1)] + w.levels[1..], w.hasRoot)
  }

  function HexDigit(d: nat): Byte
    requires d < 16
  {
    if d < 10 then 48 + d else 55 + d
  }

  // How the writer spells one byte of a string.
  function Escaped(c: Byte): Bytes {
    if c == QUOTE || c == BACKSLASH then [BACKSLASH, c]
    else if c == 8 then [BACKSLASH, 98]
    else if c == TAB then [BACKSLASH, 116]
    else if c == LF then [BACKSLASH, 110]
    else if c == 12 then [BACKSLASH, 102]
    else if c == CR then [BACKSLASH, 114]
    else if c < 0x20 then [BACKSLASH, 117, 48, 48, HexDigit(c / 16), HexDigit(c % 16)]
    else [c]
  }

  function EscapedAll(b: Bytes): Bytes {
    if b == [] then [] else Escaped(b[0]) + EscapedAll(b[1..])
  }

  function StringText(b: Bytes): Bytes {
    [QUOTE] + EscapedAll(b) + [QUOTE]
  }

  // The text of a value other than an object or an array.
  function LeafText(e: Event): Bytes {
    match e
    case Null => Text("null")
    case Bool(b) => if b then Text("true") else Text("false")
    case Int(i) => IntText(i)
    case Uint(i) => IntText(i)
    case Int64(i) => IntText(i)
    case Uint64(i) => IntText(i)
    case String(t) => StringText(t)
    case Key(t) => StringText(t)
    case _ => []
  }

  function Emit(w: Written, e: Event): Written {
    match e
    case StartObject =>
      var p := Prefixed(w);
      Written(p.os + [LBRACE], [Level(false, 0)] + p.levels, p.hasRoot)
    case StartArray =>
      var p := Prefixed(w);
      Written(p.os + [LBRACKET], [Level(true, 0)] + p.levels, p.hasRoot)
    case EndObject(_) => if w.levels == [] then w else Written(w.os + [RBRACE], w.levels[1..], w.hasRoot)
    case EndArray(_) => if w.levels == [] then w else Written(w.os + [RBRACKET], w.levels[1..], w.hasRoot)
    case _ => Put(Prefixed(w), LeafText(e))
  }

  function EmitAll(w: Written, es: seq<Event>): Written
    decreases |es|
  {
    if es == [] then w else EmitAll(Emit(w, es[0]), es[1..])
  }

  lemma {:induction false} EmitAppend(w: Written, a: seq<Event>, b: seq<Event>)
    ensures EmitAll(w, a + b) == EmitAll(EmitAll(w, a), b)
    decreases |a|
  {
    if a == [] {
      assert a + b == b;
    } else {
      assert (a + b)[1..] == a[1..] + b;
      EmitAppend(Emit(w, a[0]), a[1..], b);
    }
  }

  // Well-nested sequences of events

  // A value: what a caller of the writer tells it in one piece. The counts given at the end of
  // objects and arrays are the caller's; the writer ignores them.
  datatype Tree =
    | Leaf(event: Event)
    | Arr(items: seq<Tree>, said: U32)
    | Obj(members: seq<Member>, said: U32)

  datatype Member = Member(key: Bytes, value: Tree)

  // The values covered: no floating-point numbers, no raw numbers, integers inside their types.
  predicate LeafOk(e: Event) {
    match e
    case Null => true
    case Bool(_) => true
    case String(_) => true
    case Int(i) => -0x8000_0000 <= i < 0x8000_0000
    case Uint(i) => 0 <= i < 0x1_0000_0000
    case Int64(i) => -0x8000_0000_0000_0000 <= i < 0x8000_0000_0000_0000
    case Uint64(i) => 0 <= i < 0x1_0000_0000_0000_0000
    case _ => false
  }

  predicate Ok(t: Tree)
    decreases t
  {
    match t
    case Leaf(e) => LeafOk(e)
    case Arr(items, _) => forall i :: 0 <= i < |items| ==> Ok(items[i])
    case Obj(members, _) => forall i :: 0 <= i < |members| ==> Ok(members[i].value)
  }

  // The events of a value as the caller sends them.
  function Events(t: Tree): seq<Event>
    decreases t, 0
  {
    match t
    case Leaf(e) => [e]
    case Arr(items, said) => [StartArray] + ItemEvents(items) + [EndArray(said)]
    case Obj(members, said) => [StartObject] + MemberEvents(members) + [EndObject(said)]
  }

  function ItemEvents(items: seq<Tree>): seq<Event>
    decreases items, 1
  {
    if items == [] then [] else Events(items[0]) + ItemEvents(items[1..])
  }

  function MemberEvents(members: seq<Member>): seq<Event>
    decreases members, 1
  {
    if members == [] then [] else [Key(members[0].key)] + Events(members[0].value) + MemberEvents(members[1..])
  }

  // The events the reader reports for it: integers by value, counts by number.

  function ReadLeaf(e: Event): Event
    requires LeafOk(e)
  {
    match e
    case Int(i) => if i < 0 then IntegerEvent(true, -i) else IntegerEvent(false, i)
    case Uint(i) => IntegerEvent(false, i)
    case Int64(i) => if i < 0 then IntegerEvent(true, -i) else IntegerEvent(false, i)
    case Uint64(i) => IntegerEvent(false, i)
    case _ => e
  }

  function ReadEvents(t: Tree): seq<Event>
    requires Ok(t)
    decreases t, 0
  {
    match t
    case Leaf(e) => [ReadLeaf(e)]
    case Arr(items, _) => [StartArray] + ReadItems(items) + [EndArray(Advance(0, |items|))]
    case Obj(members, _) => [StartObject] + ReadMembers(members) + [EndObject(Advance(0, |members|))]
  }

  function ReadItems(items: seq<Tree>): seq<Event>
    requires forall i :: 0 <= i < |items| ==> Ok(items[i])
    decreases items, 1
  {
    if items == [] then [] else ReadEvents(items[0]) + ReadItems(items[1..])
  }

  function ReadMembers(members: seq<Member>): seq<Event>
    requires forall i :: 0 <= i < |members| ==> Ok(members[i].value)
    decreases members, 1
  {
    if members == [] then []
    else [Key(members[0].key)] + ReadEvents(members[0].value) + ReadMembers(members[1..])
  }

  // The text of a value.
  function TextOf(t: Tree): Bytes
    decreases t, 0
  {
    match t
    case Leaf(e) => LeafText(e)
    case Arr(items, _) => [LBRACKET] + ItemsText(items, true) + [RBRACKET]
    case Obj(members, _) => [LBRACE] + MembersText(members, true) + [RBRACE]
  }

  function Comma(first: bool): Bytes {
    if first then [] else [COMMA]
  }

  function ItemsText(items: seq<Tree>, first: bool): Bytes
    decreases items, 1
  {
    if items == [] then [] else Comma(first) + TextOf(items[0]) + ItemsText(items[1..], false)
  }

  function MembersText(members: seq<Member>, first: bool): Bytes
    decreases members, 1
  {
    if members == [] then []
    else
      Comma(first) + StringText(members[0].key) + [COLON] + TextOf(members[0].value) +
      MembersText(members[1..], false)
  }

  // The writer writes the text

  lemma {:induction false} WritesValue(w: Written, t: Tree)
    requires Ok(t)
    ensures EmitAll(w, Events(t)) == Put(Prefixed(w), TextOf(t))
    decreases t, 2
  {
    hide ItemsText, MembersText, ItemEvents, MemberEvents, StringText;
    match t
    case Leaf(e) =>
      assert [e][1..] == [];
      assert EmitAll(w, [e]) == EmitAll(Emit(w, e), []);
    case Arr(items, said) =>
      var p := Prefixed(w);
      WritesItems(p.os + [LBRACKET], 0, p.levels, p.hasRoot, items);
      WritesBracketed(w, StartArray, ItemEvents(items), EndArray(said), ItemsText(items, true), Level(true, |items|));
    case Obj(members, said) =>
      var p := Prefixed(w);
      WritesMembers(p.os + [LBRACE], 0, p.levels, p.hasRoot, members);
      WritesBracketed(w, StartObject, MemberEvents(members), EndObject(said), MembersText(members, true),
                      Level(false, 2 * |members|));
  }

  // An array or object around its contents.
  lemma {:induction false} WritesBracketed(w: Written, open: Event, inner: seq<Event>, close: Event, text: Bytes,
      l: Level)
    requires if l.inArray then open == StartArray && close.EndArray? else open == StartObject && close.EndObject?
    requires var p := Prefixed(w);
      EmitAll(Emit(w, open), inner) ==
        Inside(p.os + (if l.inArray then [LBRACKET] else [LBRACE]) + text, l, p.levels, p.hasRoot)
    ensures EmitAll(w, [open] + inner + [close])
         == Put(Prefixed(w), (if l.inArray then [LBRACKET] + text + [RBRACKET] else [LBRACE] + text + [RBRACE]))
  {
    var p := Prefixed(w);
    EmitAppend(w, [open] + inner, [close]);
    EmitAppend(w, [open], inner);
    EmitOne(w, open);
    EmitOne(EmitAll(Emit(w, open), inner), close);
    assert ([l] + p.levels)[1..] == p.levels;
    var left, right := if l.inArray then [LBRACKET] else [LBRACE], if l.inArray then [RBRACKET] else [RBRACE];
    Associate(p.os, left, text);
    Associate(p.os, left + text, right);
  }

  lemma EmitOne(w: Written, e: Event)
    ensures EmitAll(w, [e]) == Emit(w, e)
  {
    assert [e][1..] == [];
    assert EmitAll(w, [e]) == EmitAll(Emit(w, e), []);
  }

  // The writer inside a level.
  function Inside(os: Bytes, l: Level, outer: seq<Level>, root: bool): Written {
    Written(os, [l] + outer, root)
  }

  lemma PrefixedInside(os: Bytes, l: Level, outer: seq<Level>, root: bool)
    ensures Prefixed(Inside(os, l, outer, root))
         == Inside(os + Separator(l), l.(valueCount := l.valueCount + 1), outer, root)
  {
    assert ([l] + outer)[1..] == outer;
  }

  // One value inside a level.
  lemma {:induction false} WritesInside(os: Bytes, l: Level, outer: seq<Level>, root: bool, t: Tree)
    requires Ok(t)
    ensures EmitAll(Inside(os, l, outer, root), Events(t))
         == Inside(os + (Separator(l) + TextOf(t)), l.(valueCount := l.valueCount + 1), outer, root)
    decreases t, 3
  {
    WritesValue(Inside(os, l, outer, root), t);
    PrefixedInside(os, l, outer, root);
    Associate(os, Separator(l), TextOf(t));
  }

  lemma {:induction false} WritesItems(os: Bytes, c: nat, outer: seq<Level>, root: bool, items: seq<Tree>)
    requires forall i :: 0 <= i < |items| ==> Ok(items[i])
    ensures EmitAll(Inside(os, Level(true, c), outer, root), ItemEvents(items))
         == Inside(os + ItemsText(items, c == 0), Level(true, c + |items|), outer, root)
    decreases items, 1
  {
    hide TextOf, Events, Inside;
    if items == [] {
      assert os + [] == os;
    } else {
      var l := Level(true, c);
      var piece, rest := Separator(l) + TextOf(items[0]), ItemsText(items[1..], false);
      EmitAppend(Inside(os, l, outer, root), Events(items[0]), ItemEvents(items[1..]));
      WritesInside(os, l, outer, root, items[0]);
      WritesItems(os + piece, c + 1, outer, root, items[1..]);
      Associate(os, piece, rest);
    }
  }

  lemma {:induction false} WritesMember(os: Bytes, c: nat, outer: seq<Level>, root: bool, m: Member)
    requires c % 2 == 0 && Ok(m.value)
    ensures EmitAll(Inside(os, Level(false, c), outer, root), [Key(m.key)] + Events(m.value))
         == Inside(os + (Comma(c == 0) + StringText(m.key) + [COLON] + TextOf(m.value)),
              Level(false, c + 2), outer, root)
    decreases m, 4
  {
    hide TextOf, StringText, Events, Ok, EmitAll;
    var l, w := Level(false, c), Inside(os, Level(false, c), outer, root);
    var name, value := Comma(c == 0) + StringText(m.key), [COLON] + TextOf(m.value);
    EmitAppend(w, [Key(m.key)], Events(m.value));
    EmitOne(w, Key(m.key));
    PrefixedInside(os, l, outer, root);
    Associate(os, Comma(c == 0), StringText(m.key));
    WritesInside(os + name, Level(false, c + 1), outer, root, m.value);
    Associate(os, name, value);
    Associate(name, [COLON], TextOf(m.value));
  }

  lemma {:induction false} WritesMembers(os: Bytes, c: nat, outer: seq<Level>, root: bool, members: seq<Member>)
    requires c % 2 == 0 && forall i :: 0 <= i < |members| ==> Ok(members[i].value)
    ensures EmitAll(Inside(os, Level(false, c), outer, root), MemberEvents(members))
         == Inside(os + MembersText(members, c == 0), Level(false, c + 2 * |members|), outer, root)
    decreases members, 1
  {
    hide TextOf, StringText, Events, Comma, Inside;
    if members == [] {
      assert os + [] == os;
    } else {
      var m := members[0];
      var piece := Comma(c == 0) + StringText(m.key) + [COLON] + TextOf(m.value);
      EmitAppend(Inside(os, Level(false, c), outer, root), [Key(m.key)] + Events(m.value), MemberEvents(members[1..]));
      WritesMember(os, c, outer, root, m);
      WritesMembers(os + piece, c + 2, outer, root, members[1..]);
      Associate(os, piece, MembersText(members[1..], false));
    }
  }

  // The writer's assertions hold

  predicate IsName(e: Event) {
    e.String? || e.Key?
  }

  // What the writer asserts when it is told `e`: one root, names where an object wants them, and
  // only what is open is closed.
  predicate Permits(w: Written, e: Event) {
    match e
    case EndObject(_) => w.levels != [] && !w.levels[0].inArray
    case EndArray(_) => w.levels != [] && w.levels[0].inArray
    case _ =>
      if w.levels == [] then !w.hasRoot
      else !w.levels[0].inArray && w.levels[0].valueCount % 2 == 0 ==> IsName(e)
  }

  predicate PermitsAll(w: Written, es: seq<Event>)
    decreases |es|
  {
    es != [] ==> Permits(w, es[0]) && PermitsAll(Emit(w, es[0]), es[1..])
  }

  lemma {:induction false} PermitsAppend(w: Written, a: seq<Event>, b: seq<Event>)
    requires PermitsAll(w, a) && PermitsAll(EmitAll(w, a), b)
    ensures PermitsAll(w, a + b)
    decreases |a|
  {
    if a == [] {
      assert a + b == b;
    } else {
      assert (a + b)[1..] == a[1..] + b;
      PermitsAppend(Emit(w, a[0]), a[1..], b);
    }
  }

  // The writer wants a value, not a name.
  predicate WantsValue(w: Written) {
    if w.levels == [] then !w.hasRoot else w.levels[0].inArray || w.levels[0].valueCount % 2 == 1
  }

  lemma {:induction false} PermitsValue(w: Written, t: Tree)
    requires Ok(t) && WantsValue(w)
    ensures PermitsAll(w, Events(t))
    decreases t, 2
  {
    match t
    case Leaf(e) => assert [e][1..] == [];
    case Arr(items, said) =>
      var p := Prefixed(w);
      WritesItems(p.os + [LBRACKET], 0, p.levels, p.hasRoot, items);
      PermitsItems(p.os + [LBRACKET], 0, p.levels, p.hasRoot, items);
      PermitsBracketed(w, StartArray, ItemEvents(items), EndArray(said));
    case Obj(members, said) =>
      var p := Prefixed(w);
      WritesMembers(p.os + [LBRACE], 0, p.levels, p.hasRoot, members);
      PermitsMembers(p.os + [LBRACE], 0, p.levels, p.hasRoot, members);
      PermitsBracketed(w, StartObject, MemberEvents(members), EndObject(said));
  }

  lemma {:induction false} PermitsBracketed(w: Written, open: Event, inner: seq<Event>, close: Event)
    requires WantsValue(w) && (open.StartArray? || open.StartObject?)
    requires PermitsAll(Emit(w, open), inner) && Permits(EmitAll(Emit(w, open), inner), close)
    ensures PermitsAll(w, [open] + inner + [close])
  {
    EmitOne(w, open);
    EmitAppend(w, [open], inner);
    assert [open][1..] == [] && [close][1..] == [];
    PermitsAppend(w, [open], inner);
    PermitsAppend(w, [open] + inner, [close]);
  }

  lemma {:induction false} PermitsItems(os: Bytes, c: nat, outer: seq<Level>, root: bool, items: seq<Tree>)
    requires forall i :: 0 <= i < |items| ==> Ok(items[i])
    ensures PermitsAll(Inside(os, Level(true, c), outer, root), ItemEvents(items))
    decreases items, 1
  {
    hide TextOf, Events, Prefixed, Put;
    if items != [] {
      var l := Level(true, c);
      PermitsValue(Inside(os, l, outer, root), items[0]);
      WritesInside(os, l, outer, root, items[0]);
      PermitsItems(os + (Separator(l) + TextOf(items[0])), c + 1, outer, root, items[1..]);
      PermitsAppend(Inside(os, l, outer, root), Events(items[0]), ItemEvents(items[1..]));
    }
  }

  lemma {:induction false} PermitsMembers(os: Bytes, c: nat, outer: seq<Level>, root: bool, members: seq<Member>)
    requires c % 2 == 0 && forall i :: 0 <= i < |members| ==> Ok(members[i].value)
    ensures PermitsAll(Inside(os, Level(false, c), outer, root), MemberEvents(members))
    decreases members, 1
  {
    hide TextOf, StringText, Events, Comma;
    if members != [] {
      var m, l := members[0], Level(false, c);
      var w := Inside(os, l, outer, root);
      var key := [Key(m.key)];
      assert key[1..] == [];
      EmitOne(w, Key(m.key));
      PrefixedInside(os, l, outer, root);
      PermitsValue(Emit(w, Key(m.key)), m.value);
      PermitsAppend(w, key, Events(m.value));
      WritesMember(os, c, outer, root, m);
      var piece := Comma(c == 0) + StringText(m.key) + [COLON] + TextOf(m.value);
      PermitsMembers(os + piece, c + 2, outer, root, members[1..]);
      PermitsAppend(w, key + Events(m.value), MemberEvents(members[1..]));
    }
  }

  // Strings are read back

  lemma HexDigitValue(d: nat)
    requires d < 16
    ensures HexValue(HexDigit(d)) == d
  {
  }

  // Reading one escaped byte gives that byte.
  lemma {:induction false} CharsStep(c: Byte, s: Bytes)
    ensures Chars(Escaped(c) + s) == Prepend([c], Chars(s))
  {
    var e := Escaped(c);
    var t := e + s;
    if |e| == 6 {
      ControlEscape(c, s);
      assert t[2..][4..] == s;
      assert Utf8(c) == [c];
    } else if |e| == 2 {
      assert t[1..][0] == e[1] && t[2..] == s;
    } else {
      assert t[1..] == s;
    }
  }

  lemma {:induction false} ControlEscape(c: Byte, s: Bytes)
    requires |Escaped(c)| == 6
    ensures UnicodeEscape((Escaped(c) + s)[2..]) == CodePoint(c, (Escaped(c) + s)[2..][4..])
  {
    HexDigitValue(c / 16);
    HexDigitValue(c % 16);
    var t := (Escaped(c) + s)[2..];
    assert t[0] == 48 && t[1] == 48 && t[2] == HexDigit(c / 16) && t[3] == HexDigit(c % 16);
  }

  // Any byte string survives: every escape the writer uses is undone by the reader.
  lemma {:induction false} CharsOfEscaped(b: Bytes, tail: Bytes)
    ensures Chars(EscapedAll(b) + ([QUOTE] + tail)) == Decoded(b, tail)
  {
    if b == [] {
      assert [] + ([QUOTE] + tail) == [QUOTE] + tail;
      assert ([QUOTE] + tail)[1..] == tail;
    } else {
      var rest := EscapedAll(b[1..]) + ([QUOTE] + tail);
      assert EscapedAll(b) + ([QUOTE] + tail) == Escaped(b[0]) + rest;
      CharsStep(b[0], rest);
      CharsOfEscaped(b[1..], tail);
      assert [b[0]] + b[1..] == b;
    }
  }

  lemma {:induction false} QuotedText(b: Bytes, key: bool, tail: Bytes)
    ensures Quoted(StringText(b) + tail, key) == Outcome([if key then Key(b) else String(b)], true, tail)
  {
    CharsOfEscaped(b, tail);
    assert (StringText(b) + tail)[1..] == EscapedAll(b) + ([QUOTE] + tail);
  }

  // Values are read back

  // What may follow a value inside a text the writer made.
  predicate Ends(tail: Bytes) {
    tail == [] || tail[0] == COMMA || tail[0] == RBRACKET || tail[0] == RBRACE
  }

  // A text that starts with something else than space or a comment.
  predicate Solid(s: Bytes) {
    !IsSpace(Peek(s)) && Peek(s) != SLASH
  }

  lemma SkipSolid(f: Flags, s: Bytes)
    requires Solid(s)
    ensures Skip(f, s) == Skipped(s)
  {
  }

  lemma {:induction false} ReadsName(name: Bytes, e: Event, tail: Bytes)
    ensures Name(name + tail, name, e) == Outcome([e], true, tail)
  {
    assert (name + tail)[|name|..] == tail;
  }

  lemma {:induction false} ScalarNumber(f: Flags, s: Bytes, e: Event, rest: Bytes)
    requires IsDigit(Peek(s)) || Peek(s) == MINUS
    requires Number(f, s) == Scanned(e, rest)
    ensures Scalar(f, s) == Outcome([e], true, rest)
  {
  }

  lemma {:induction false} ReadsInteger(f: Flags, i: int, tail: Bytes)
    requires Ends(tail) && !f.numbersAsStrings && Fits64(i < 0, if i < 0 then -i else i)
    ensures Scalar(f, IntText(i) + tail) == Outcome([IntegerEvent(i < 0, if i < 0 then -i else i)], true, tail)
  {
    var v: nat := if i < 0 then -i else i;
    var s := IntText(i) + tail;
    NumberOfDigits(f, i < 0, v, tail);
    assert (if i < 0 then [MINUS] else []) + Digits(v) == IntText(i);
    assert IsDigit(Peek(s)) || Peek(s) == MINUS by {
      DigitsRead(v);
      assert Peek(s) == IntText(i)[0];
    }
    ScalarNumber(f, s, IntegerEvent(i < 0, v), tail);
  }

  lemma {:induction false} ReadsScalar(f: Flags, e: Event, tail: Bytes)
    requires LeafOk(e) && Ends(tail) && !f.numbersAsStrings
    ensures Scalar(f, LeafText(e) + tail) == Outcome([ReadLeaf(e)], true, tail)
  {
    match e
    case Null => ReadsName(Text("null"), Null, tail);
    case Bool(b) => ReadsName(if b then Text("true") else Text("false"), e, tail);
    case String(t) => QuotedText(t, false, tail);
    case Int(i) => ReadsInteger(f, i, tail);
    case Uint(i) => ReadsInteger(f, i, tail);
    case Int64(i) => ReadsInteger(f, i, tail);
    case Uint64(i) => ReadsInteger(f, i, tail);
  }

  // The first character of a value: neither space, nor a slash, nor a closing bracket or brace.
  predicate Opens(c: Byte) {
    !IsSpace(c) && c != SLASH && c != RBRACKET && c != RBRACE && c != 0
  }

  lemma {:induction false} LeafOpens(e: Event)
    requires LeafOk(e)
    ensures LeafText(e) != [] && Opens(LeafText(e)[0]) && LeafText(e)[0] != LBRACE && LeafText(e)[0] != LBRACKET
  {
    match e
    case Int(i) => DigitsRead(if i < 0 then -i else i);
    case Uint(i) => DigitsRead(i);
    case Int64(i) => DigitsRead(if i < 0 then -i else i);
    case Uint64(i) => DigitsRead(i);
    case _ =>
  }

  lemma {:induction false} TextOpens(t: Tree)
    requires Ok(t)
    ensures TextOf(t) != [] && Opens(TextOf(t)[0])
  {
    if t.Leaf? {
      LeafOpens(t.event);
    }
  }

  lemma {:induction false} AdvanceShift(n: U32, k: nat)
    ensures Advance(Add(n, 1), k) == Advance(n, k + 1)
  {
    if k > 0 {
      AdvanceShift(n, k - 1);
    }
  }

  lemma ItemsAfterComma(items: seq<Tree>)
    requires items != []
    ensures ItemsText(items, false) == [COMMA] + ItemsText(items, true)
  {
    hide TextOf;
  }

  lemma MembersAfterComma(members: seq<Member>)
    requires members != []
    ensures MembersText(members, false) == [COMMA] + MembersText(members, true)
  {
    hide TextOf, StringText;
    var m := members[0];
    var body := StringText(m.key) + [COLON] + TextOf(m.value) + MembersText(members[1..], false);
    assert MembersText(members, true) == [] + body;
    assert MembersText(members, false) == [COMMA] + body;
  }

  // Whatever the flags, except that numbers must not be turned into strings, the reader takes the
  // text of a value back into its events.
  lemma {:induction false} ReadsValue(f: Flags, t: Tree, tail: Bytes)
    requires Ok(t) && Ends(tail) && !f.numbersAsStrings
    ensures Value(f, TextOf(t) + tail) == Outcome(ReadEvents(t), true, tail)
    decreases t, 2
  {
    hide ItemsText, MembersText, ReadItems, ReadMembers, Scalar, Array, Object;
    match t
    case Leaf(e) =>
      LeafOpens(e);
      ReadsScalar(f, e, tail);
    case Arr(items, said) =>
      var inner := ItemsText(items, true) + ([RBRACKET] + tail);
      assert TextOf(t) + tail == [LBRACKET] + inner;
      assert ([LBRACKET] + inner)[1..] == inner;
      ReadsArray(f, items, tail);
    case Obj(members, said) =>
      var inner := MembersText(members, true) + ([RBRACE] + tail);
      assert TextOf(t) + tail == [LBRACE] + inner;
      assert ([LBRACE] + inner)[1..] == inner;
      ReadsObject(f, members, tail);
  }

  lemma {:induction false} ReadsArray(f: Flags, items: seq<Tree>, tail: Bytes)
    requires (forall i :: 0 <= i < |items| ==> Ok(items[i])) && Ends(tail) && !f.numbersAsStrings
    ensures Array(f, ItemsText(items, true) + ([RBRACKET] + tail))
         == Outcome(ReadItems(items) + [EndArray(Advance(0, |items|))], true, tail)
    decreases items, 3
  {
    var inner := ItemsText(items, true) + ([RBRACKET] + tail);
    if items == [] {
      assert inner == [RBRACKET] + tail && inner[1..] == tail;
    } else {
      TextOpens(items[0]);
      assert inner[0] == TextOf(items[0])[0];
      ReadsItems(f, items, 0, tail);
    }
  }

  lemma {:induction false} ReadsItems(f: Flags, items: seq<Tree>, n: U32, tail: Bytes)
    requires items != [] && (forall i :: 0 <= i < |items| ==> Ok(items[i])) && Ends(tail) && !f.numbersAsStrings
    ensures Elements(f, ItemsText(items, true) + ([RBRACKET] + tail), n)
         == Outcome(ReadItems(items) + [EndArray(Advance(n, |items|))], true, tail)
    decreases items, 2
  {
    hide TextOf, ReadEvents, Value, AfterElement, Ok;
    var rest := ItemsText(items[1..], false) + ([RBRACKET] + tail);
    assert ItemsText(items, true) + ([RBRACKET] + tail) == TextOf(items[0]) + rest;
    assert Ends(rest) by {
      if items[1..] != [] {
        ItemsAfterComma(items[1..]);
      }
    }
    ReadsValue(f, items[0], rest);
    ReadsAfterItem(f, items[1..], Add(n, 1), tail);
    AdvanceShift(n, |items| - 1);
    Associate(ReadEvents(items[0]), ReadItems(items[1..]), [EndArray(Advance(n, |items|))]);
  }

  lemma {:induction false} ReadsAfterItem(f: Flags, items: seq<Tree>, n: U32, tail: Bytes)
    requires (forall i :: 0 <= i < |items| ==> Ok(items[i])) && Ends(tail) && !f.numbersAsStrings
    ensures AfterElement(f, ItemsText(items, false) + ([RBRACKET] + tail), n)
         == Outcome(ReadItems(items) + [EndArray(Advance(n, |items|))], true, tail)
    decreases items, 3
  {
    hide TextOf, ReadEvents, Value, Elements, Ok;
    var s := ItemsText(items, false) + ([RBRACKET] + tail);
    if items == [] {
      assert s == [RBRACKET] + tail && s[1..] == tail;
      SkipSolid(f, s);
    } else {
      var next := ItemsText(items, true) + ([RBRACKET] + tail);
      ItemsAfterComma(items);
      assert s == [COMMA] + next && s[1..] == next;
      SkipSolid(f, s);
      TextOpens(items[0]);
      assert next[0] == TextOf(items[0])[0];
      SkipSolid(f, next);
      ReadsItems(f, items, n, tail);
    }
  }

  lemma {:induction false} ReadsObject(f: Flags, members: seq<Member>, tail: Bytes)
    requires (forall i :: 0 <= i < |members| ==> Ok(members[i].value)) && Ends(tail) && !f.numbersAsStrings
    ensures Object(f, MembersText(members, true) + ([RBRACE] + tail))
         == Outcome(ReadMembers(members) + [EndObject(Advance(0, |members|))], true, tail)
    decreases members, 5
  {
    var inner := MembersText(members, true) + ([RBRACE] + tail);
    if members == [] {
      assert inner == [RBRACE] + tail && inner[1..] == tail;
    } else {
      assert inner[0] == QUOTE;
      ReadsMembers(f, members, 0, tail);
    }
  }

  // One member: its name, the colon and its value.
  lemma {:induction false} ReadsMember(f: Flags, m: Member, n: U32, rest: Bytes)
    requires Ok(m.value) && Ends(rest) && !f.numbersAsStrings
    ensures Members(f, StringText(m.key) + ([COLON] + (TextOf(m.value) + rest)), n)
         == Then([Key(m.key)] + ReadEvents(m.value), AfterMember(f, rest, Add(n, 1)))
    decreases m, 3
  {
    hide TextOf, ReadEvents, Value, AfterMember, Ok;
    var value := TextOf(m.value) + rest;
    var named := [COLON] + value;
    QuotedText(m.key, true, named);
    SkipSolid(f, named);
    assert named[1..] == value;
    TextOpens(m.value);
    assert value[0] == TextOf(m.value)[0];
    SkipSolid(f, value);
    ReadsValue(f, m.value, rest);
    Associate([Key(m.key)], ReadEvents(m.value), AfterMember(f, rest, Add(n, 1)).events);
  }

  lemma Flatten(a: Bytes, b: Bytes, c: Bytes, d: Bytes, e: Bytes)
    ensures [] + a + b + c + d + e == a + (b + (c + (d + e)))
  {
    Associate(a, b, c);
    Associate(a, b + c, d);
    Associate(b, c, d);
  }

  lemma {:induction false} ReadsMembers(f: Flags, members: seq<Member>, n: U32, tail: Bytes)
    requires members != [] && (forall i :: 0 <= i < |members| ==> Ok(members[i].value)) && Ends(tail) &&
      !f.numbersAsStrings
    ensures Members(f, MembersText(members, true) + ([RBRACE] + tail), n)
         == Outcome(ReadMembers(members) + [EndObject(Advance(n, |members|))], true, tail)
    decreases members, 2
  {
    hide TextOf, StringText, ReadEvents, Members, AfterMember, Ok;
    var m := members[0];
    var rest := MembersText(members[1..], false) + ([RBRACE] + tail);
    Flatten(StringText(m.key), [COLON], TextOf(m.value), MembersText(members[1..], false), [RBRACE] + tail);
    assert Ends(rest) by {
      if members[1..] != [] {
        MembersAfterComma(members[1..]);
      }
    }
    ReadsMember(f, m, n, rest);
    ReadsAfterMember(f, members[1..], Add(n, 1), tail);
    AdvanceShift(n, |members| - 1);
    Associate([Key(m.key)] + ReadEvents(m.value), ReadMembers(members[1..]), [EndObject(Advance(n, |members|))]);
  }

  lemma {:induction false} ReadsAfterMember(f: Flags, members: seq<Member>, n: U32, tail: Bytes)
    requires (forall i :: 0 <= i < |members| ==> Ok(members[i].value)) && Ends(tail) && !f.numbersAsStrings
    ensures AfterMember(f, MembersText(members, false) + ([RBRACE] + tail), n)
         == Outcome(ReadMembers(members) + [EndObject(Advance(n, |members|))], true, tail)
    decreases members, 3
  {
    hide TextOf, ReadEvents, Members, Ok;
    var s := MembersText(members, false) + ([RBRACE] + tail);
    if members == [] {
      assert s == [RBRACE] + tail && s[1..] == tail;
      SkipSolid(f, s);
    } else {
      var next := MembersText(members, true) + ([RBRACE] + tail);
      MembersAfterComma(members);
      assert s == [COMMA] + next && s[1..] == next;
      SkipSolid(f, s);
      assert next[0] == QUOTE;
      SkipSolid(f, next);
      ReadsMembers(f, members, n, tail);
    }
  }

  const FRESH := Written([], [], false)

  // Writing any well-nested sequence of events and reading the text back, with either parser,
  // gives the same events: integers equal by value, and the counts those of the contents.
  lemma {:induction false} WriteRead(f: Flags, t: Tree)
    requires Ok(t) && !f.numbersAsStrings
    ensures var w := EmitAll(FRESH, Events(t));
      && PermitsAll(FRESH, Events(t)) && w.levels == [] && w.hasRoot && w.os == TextOf(t)
      && Recursive(f, w.os) == Outcome(ReadEvents(t), true, [])
      && Iterative(f, w.os) == Outcome(ReadEvents(t), true, [])
  {
    var s := TextOf(t);
    WritesValue(FRESH, t);
    PermitsValue(FRESH, t);
    assert [] + s == s && s + [] == s;
    TextOpens(t);
    SkipSolid(f, s);
    ReadsValue(f, t, []);
    SkipSolid(f, []);
    ParsersAgree(f, s);
  }

  // The spelling of a byte

  // The table of short escapes has this letter for this byte.
  predicate ShortFor(letter: Byte, c: Byte) {
    exists k :: 0 <= k < |Strings.SHORT| && Strings.SHORT[k] == (letter, c)
  }

  // A byte that a string may hold is written as it is; of the others, one that has a short escape is
  // written with it, and any other with four hexadecimal digits in upper case.
  lemma {:induction false} EscapedIs(c: Byte, letter: Byte)
    ensures Strings.ItemOk(Strings.Raw(c)) ==> Escaped(c) == [c]
    ensures !Strings.ItemOk(Strings.Raw(c)) && ShortFor(letter, c) ==> Escaped(c) == [92, letter]
    ensures !Strings.ItemOk(Strings.Raw(c)) && (forall l: Byte :: !ShortFor(l, c)) ==>
      Escaped(c) == Strings.ItemText(Strings.EscapeOf(c, true))
  {
    hide ShortFor, Strings.HexText;
    ShortsAre();
    if ShortFor(letter, c) {
      ShortEscaped(letter, c);
    }
    if c < 0x20 {
      HexEscaped(c);
    }
  }

  lemma ShortsAre()
    ensures ShortFor(34, 34) && ShortFor(92, 92) && ShortFor(98, 8) && ShortFor(102, 12) && ShortFor(110, 10)
    ensures ShortFor(114, 13) && ShortFor(116, 9)
  {
    assert Strings.SHORT[0] == (34, 34) && Strings.SHORT[1] == (92, 92) && Strings.SHORT[3] == (98, 8);
    assert Strings.SHORT[4] == (102, 12) && Strings.SHORT[5] == (110, 10) && Strings.SHORT[6] == (114, 13);
    assert Strings.SHORT[7] == (116, 9);
  }

  lemma ShortEscaped(letter: Byte, c: Byte)
    requires ShortFor(letter, c)
    ensures c == 47 || Escaped(c) == [92, letter]
  {
  }

  lemma HexEscaped(c: Byte)
    requires c < 0x20
    ensures [92, 117, 48, 48, HexDigit(c / 16), HexDigit(c % 16)] == Strings.ItemText(Strings.EscapeOf(c, true))
  {
    assert c / 0x1000 == 0 && c / 0x100 == 0 && c / 0x10 == c / 16;
  }
}
