/** JSON texts as RFC 8259 defines them, with the comments and trailing commas that the flags allow,
    and that the reader accepts exactly these and reports what they contain. */
module JsonSyntax {
  import opened Sequences
  import opened Serial
  import opened JsonText
  import opened JsonGrammar
  import opened JsonSpace
  import opened JsonStrings
  import opened JsonNumbers
  import Itoa

  // A value as it is written, each string and each number beside what it is reported as. Before a
  // closing bracket or brace there may be a comma and a gap; a gap alone is written only where there
  // is nothing else, as elsewhere it belongs to the last element.
  datatype Doc =
    | Nil
    | Truth(b: bool)
    | Str(items: seq<Item>, text: Bytes)
    | Num(numeral: Numeral, event: Event)
    | List(elements: seq<Spaced>, close: Close)
    | Dict(members: seq<Entry>, close: Close)

  datatype Spaced = Spaced(before: Gap, doc: Doc, after: Gap)

  datatype Entry = Entry(before: Gap, name: seq<Item>, key: Bytes, middle: Gap, value: Spaced)

  datatype Close = Close(comma: bool, gap: Gap)

  // The text of a value, with what follows it.
  function DocText(d: Doc, tail: Bytes): Bytes
    decreases d, 0
  {
    match d
    case Nil => [110, 117, 108, 108] + tail
    case Truth(b) => (if b then [116, 114, 117, 101] else [102, 97, 108, 115, 101]) + tail
    case Str(items, _) => QuotedText(items, tail)
    case Num(n, _) => NumeralText(n) + tail
    case List(elements, close) => [91] + ListText(elements, close, tail)
    case Dict(members, close) => [123] + DictText(members, close, tail)
  }

  function QuotedText(items: seq<Item>, tail: Bytes): Bytes {
    [34] + (ItemsText(items) + ([34] + tail))
  }

  function SpacedText(x: Spaced, tail: Bytes): Bytes
    decreases x, 1
  {
    GapText(x.before, DocText(x.doc, GapText(x.after, tail)))
  }

  function EntryText(e: Entry, tail: Bytes): Bytes
    decreases e, 2
  {
    GapText(e.before, QuotedText(e.name, GapText(e.middle, [58] + SpacedText(e.value, tail))))
  }

  function CloseText(close: Close, bracket: Byte, tail: Bytes): Bytes {
    (if close.comma then [44] else []) + GapText(close.gap, [bracket] + tail)
  }

  function ListText(es: seq<Spaced>, close: Close, tail: Bytes): Bytes
    decreases es, 2
  {
    if es == [] then CloseText(close, 93, tail) else SpacedText(es[0], MoreElements(es[1..], close, tail))
  }

  function MoreElements(es: seq<Spaced>, close: Close, tail: Bytes): Bytes
    decreases es, 2
  {
    if es == [] then CloseText(close, 93, tail) else [44] + SpacedText(es[0], MoreElements(es[1..], close, tail))
  }

  function DictText(ms: seq<Entry>, close: Close, tail: Bytes): Bytes
    decreases ms, 3
  {
    if ms == [] then CloseText(close, 125, tail) else EntryText(ms[0], MoreMembers(ms[1..], close, tail))
  }

  function MoreMembers(ms: seq<Entry>, close: Close, tail: Bytes): Bytes
    decreases ms, 3
  {
    if ms == [] then CloseText(close, 125, tail) else [44] + EntryText(ms[0], MoreMembers(ms[1..], close, tail))
  }

  // What the flags allow

  predicate CloseOk(f: Flags, empty: bool, close: Close) {
    && GapOk(f.comments, close.gap, false) && (close.comma ==> f.trailingCommas && !empty)
    && (!close.comma && !empty ==> close.gap == [])
  }

  predicate DocOk(f: Flags, d: Doc)
    decreases d, 0
  {
    match d
    case Nil => true
    case Truth(_) => true
    case Str(items, text) => ItemsOk(items) && StringMeans(items, text)
    case Num(n, e) => NumeralOk(n) && NumberReads(f, n, e)
    case List(elements, close) => CloseOk(f, elements == [], close) && ElementsOk(f, elements)
    case Dict(members, close) => CloseOk(f, members == [], close) && MembersOk(f, members)
  }

  predicate SpacedOk(f: Flags, x: Spaced)
    decreases x, 1
  {
    GapOk(f.comments, x.before, false) && DocOk(f, x.doc) && GapOk(f.comments, x.after, false)
  }

  predicate EntryOk(f: Flags, e: Entry)
    decreases e, 2
  {
    && GapOk(f.comments, e.before, false) && ItemsOk(e.name) && StringMeans(e.name, e.key)
    && GapOk(f.comments, e.middle, false) && SpacedOk(f, e.value)
  }

  predicate ElementsOk(f: Flags, es: seq<Spaced>)
    decreases es, 2
  {
    es != [] ==> SpacedOk(f, es[0]) && ElementsOk(f, es[1..])
  }

  predicate MembersOk(f: Flags, ms: seq<Entry>)
    decreases ms, 3
  {
    ms != [] ==> EntryOk(f, ms[0]) && MembersOk(f, ms[1..])
  }

  // What is reported. The counts are 32 bits wide.

  function DocEvents(d: Doc): seq<Event>
    decreases d, 0
  {
    match d
    case Nil => [Null]
    case Truth(b) => [Bool(b)]
    case Str(_, text) => [String(text)]
    case Num(_, e) => [e]
    case List(elements, _) => [StartArray] + ElementsEvents(elements, |elements| % 0x1_0000_0000)
    case Dict(members, _) => [StartObject] + MembersEvents(members, |members| % 0x1_0000_0000)
  }

  function ElementsEvents(es: seq<Spaced>, total: U32): seq<Event>
    decreases es, 2
  {
    if es == [] then [EndArray(total)] else DocEvents(es[0].doc) + ElementsEvents(es[1..], total)
  }

  function MembersEvents(ms: seq<Entry>, total: U32): seq<Event>
    decreases ms, 3
  {
    if ms == [] then [EndObject(total)]
    else [Key(ms[0].key)] + (DocEvents(ms[0].value.doc) + MembersEvents(ms[1..], total))
  }

  // How a value starts: with a token, and none of those that end or separate values.
  predicate StartsValue(f: Flags, s: Bytes) {
    AtToken(f.comments, s) && s != [] && s[0] != 0 && s[0] != 44 && s[0] != 58 && s[0] != 93 && s[0] != 125
  }

  lemma {:induction false} DocStarts(f: Flags, d: Doc, tail: Bytes)
    requires DocOk(f, d)
    ensures StartsValue(f, DocText(d, tail)) && (DocText(d, tail)[0] == 123 <==> d.Dict?)
    ensures DocText(d, tail)[0] == 91 <==> d.List?
    ensures DocText(d, tail)[0] == 34 <==> d.Str?
    ensures DocText(d, tail)[0] == 110 <==> d.Nil?
    ensures DocText(d, tail)[0] == 116 <==> d.Truth? && d.b
    ensures DocText(d, tail)[0] == 102 <==> d.Truth? && !d.b
  {
    hide ListText, DictText, StringMeans, NumberReads, CloseOk, ElementsOk, MembersOk;
    if d.Num? {
      assert DocText(d, tail)[0] == NumeralText(d.numeral)[0];
      assert NumeralText(d.numeral)[0] == if d.numeral.minus then 45 else d.numeral.whole[0];
    }
  }

  // What follows a value inside another cannot continue a number.
  predicate Delimits(s: Bytes) {
    s != [] && (s[0] == 44 || s[0] == 93 || s[0] == 125)
  }

  lemma {:induction false} GapEndsNumber(comments: bool, g: Gap, atEnd: bool, tail: Bytes)
    requires GapOk(comments, g, atEnd) && Itoa.NumberEnds(tail)
    ensures Itoa.NumberEnds(GapText(g, tail))
  {
  }

  lemma CloseStarts(f: Flags, close: Close, bracket: Byte, tail: Bytes)
    requires CloseOk(f, false, close)
    ensures var s := CloseText(close, bracket, tail);
      s != [] && s[0] == if close.comma then 44 else bracket
  {
    if !close.comma {
      assert [] + ([bracket] + tail) == [bracket] + tail;
    }
  }

  // Every text of the grammar is read

  lemma {:induction false} ReadsLeaf(f: Flags, d: Doc, tail: Bytes)
    requires DocOk(f, d) && !d.List? && !d.Dict? && (d.Num? ==> Itoa.NumberEnds(tail))
    ensures Value(f, DocText(d, tail)) == Outcome(DocEvents(d), true, tail)
  {
    hide StringMeans, NumberReads, Number, Chars, NumeralOk, ItemsOk, NumeralText, Classify, Itoa.NumberEnds;
    var s := DocText(d, tail);
    DocStarts(f, d, tail);
    match d
    case Nil => LiteralRead(Text("null"), [110, 117, 108, 108], tail);
    case Truth(b) =>
      LiteralRead(Text("true"), [116, 114, 117, 101], tail);
      LiteralRead(Text("false"), [102, 97, 108, 115, 101], tail);
    case Str(items, text) => ReadsQuoted(items, text, tail, false);
    case Num(n, e) =>
      ReadsNumeral(f, n, tail);
      ClassifyMeans(f, n, tail);
      NumberReadsHere(f, n, e, Number(f, s), tail);
  }

  lemma NumberReadsHere(f: Flags, n: Numeral, e: Event, r: Scanned, tail: Bytes)
    requires NumberReads(f, n, e) && (r.BadNumber? <==> !IsSmall(n) && f.tooBig(NumeralText(n)))
    requires r.Scanned? ==> NumberReads(f, n, r.event) && r.rest == tail
    ensures r == Scanned(e, tail)
  {
    if r.Scanned? {
      NumberReadsOne(f, n, e, r.event);
    }
  }

  lemma LiteralRead(name: Bytes, literal: Bytes, tail: Bytes)
    requires name == literal
    ensures name <= literal + tail && (literal + tail)[|name|..] == tail
  {
  }

  lemma {:induction false} ReadsQuoted(items: seq<Item>, text: Bytes, tail: Bytes, key: bool)
    requires ItemsOk(items) && StringMeans(items, text)
    ensures Quoted(QuotedText(items, tail), key) == Outcome([if key then Key(text) else String(text)], true, tail)
  {
    hide StringMeans, Chars, ItemsOk, StringBytes;
    ReadsString(items, tail);
    StringMeansOne(items, text);
    assert QuotedText(items, tail)[1..] == ItemsText(items) + ([QUOTE] + tail);
  }

  lemma {:induction false} ReadsDoc(f: Flags, d: Doc, tail: Bytes)
    requires DocOk(f, d) && (d.Num? ==> Itoa.NumberEnds(tail))
    ensures Value(f, DocText(d, tail)) == Outcome(DocEvents(d), true, tail)
    decreases d, 0
  {
    hide ListText, DictText, CloseOk, ElementsOk, MembersOk, StringMeans, NumberReads, Itoa.NumberEnds;
    match d
    case List(elements, close) =>
      ReadsList(f, elements, close, tail);
      assert DocText(d, tail)[1..] == ListText(elements, close, tail);
    case Dict(members, close) =>
      ReadsDict(f, members, close, tail);
      assert DocText(d, tail)[1..] == DictText(members, close, tail);
    case _ => ReadsLeaf(f, d, tail);
  }

  lemma TailOfPrefixed(c: Byte, s: Bytes)
    ensures ([c] + s)[1..] == s
  {
  }

  // The end of an empty list or object.
  lemma {:induction false} SkipsClose(f: Flags, close: Close, bracket: Byte, tail: Bytes)
    requires CloseOk(f, true, close) && (bracket == 93 || bracket == 125)
    ensures Skip(f, CloseText(close, bracket, tail)) == Skipped([bracket] + tail)
  {
    SkipsGap(f, close.gap, [bracket] + tail);
    assert [] + GapText(close.gap, [bracket] + tail) == GapText(close.gap, [bracket] + tail);
  }

  lemma {:induction false} ReadsList(f: Flags, es: seq<Spaced>, close: Close, tail: Bytes)
    requires CloseOk(f, es == [], close) && ElementsOk(f, es)
    ensures Array(f, ListText(es, close, tail)) == Outcome(ElementsEvents(es, |es| % 0x1_0000_0000), true, tail)
    decreases es, 4
  {
    hide GapOk, Skip;
    if es == [] {
      SkipsClose(f, close, 93, tail);
      assert ([93] + tail)[1..] == tail;
    } else {
      var x, more := es[0], GapText(es[0].after, MoreElements(es[1..], close, tail));
      DocStarts(f, x.doc, more);
      SkipsHere(f, x.before, DocText(x.doc, more));
      ReadsElements(f, es, 0, |es| % 0x1_0000_0000, close, tail);
    }
  }

  lemma {:induction false} SkipsHere(f: Flags, g: Gap, tail: Bytes)
    requires GapOk(f.comments, g, false) && AtToken(f.comments, tail)
    ensures Skip(f, GapText(g, tail)) == Skipped(tail)
  {
    SkipsGap(f, g, tail);
  }

  lemma {:induction false} ReadsElements(f: Flags, es: seq<Spaced>, n: U32, total: U32, close: Close, tail: Bytes)
    requires es != [] && ElementsOk(f, es) && CloseOk(f, false, close) && total == (n + |es|) % 0x1_0000_0000
    ensures var x := es[0];
      Elements(f, DocText(x.doc, GapText(x.after, MoreElements(es[1..], close, tail))), n)
        == Outcome(ElementsEvents(es, total), true, tail)
    decreases es, 2
  {
    hide GapOk, Skip, GapText, DocText, CloseOk;
    var x, more := es[0], MoreElements(es[1..], close, tail);
    CloseStarts(f, close, 93, tail);
    GapEndsNumber(f.comments, x.after, false, more);
    ReadsDoc(f, x.doc, GapText(x.after, more));
    ReadsMoreElements(f, x.after, es[1..], Add(n, 1), total, close, tail);
  }

  lemma {:induction false} ReadsMoreElements(f: Flags, after: Gap, es: seq<Spaced>, n: U32, total: U32, close: Close,
      tail: Bytes)
    requires GapOk(f.comments, after, false) && ElementsOk(f, es) && CloseOk(f, false, close)
    requires total == (n + |es|) % 0x1_0000_0000
    ensures AfterElement(f, GapText(after, MoreElements(es, close, tail)), n)
         == Outcome(ElementsEvents(es, total), true, tail)
    decreases es, 3
  {
    hide GapOk, Skip, GapText, DocText;
    var more := MoreElements(es, close, tail);
    CloseStarts(f, close, 93, tail);
    SkipsHere(f, after, more);
    if es == [] {
      ReadsClose(f, close, 93, tail);
    } else {
      var x, rest := es[0], GapText(es[0].after, MoreElements(es[1..], close, tail));
      TailOfPrefixed(44, SpacedText(x, MoreElements(es[1..], close, tail)));
      DocStarts(f, x.doc, rest);
      SkipsHere(f, x.before, DocText(x.doc, rest));
      ReadsElements(f, es, n, total, close, tail);
    }
  }

  // The end of a list or object that is not empty.
  lemma {:induction false} ReadsClose(f: Flags, close: Close, bracket: Byte, tail: Bytes)
    requires CloseOk(f, false, close) && (bracket == 93 || bracket == 125)
    ensures var s := CloseText(close, bracket, tail);
      if close.comma then f.trailingCommas && s[0] == 44 && Skip(f, s[1..]) == Skipped([bracket] + tail)
      else s == [bracket] + tail
    ensures ([bracket] + tail)[1..] == tail
  {
    hide Skip;
    var s := CloseText(close, bracket, tail);
    SkipsHere(f, close.gap, [bracket] + tail);
    if close.comma {
      assert s[1..] == GapText(close.gap, [bracket] + tail);
    } else {
      assert [] + ([bracket] + tail) == [bracket] + tail;
    }
  }

  lemma {:induction false} ReadsDict(f: Flags, ms: seq<Entry>, close: Close, tail: Bytes)
    requires CloseOk(f, ms == [], close) && MembersOk(f, ms)
    ensures Object(f, DictText(ms, close, tail)) == Outcome(MembersEvents(ms, |ms| % 0x1_0000_0000), true, tail)
    decreases ms, 4
  {
    hide GapOk, Skip, Members, QuotedText;
    if ms == [] {
      SkipsClose(f, close, 125, tail);
      assert ([125] + tail)[1..] == tail;
    } else {
      SkipsHere(f, ms[0].before, FromKey(ms[0], MoreMembers(ms[1..], close, tail)));
      ReadsMembers(f, ms, 0, |ms| % 0x1_0000_0000, close, tail);
    }
  }

  // An entry from its name on.
  function FromKey(e: Entry, tail: Bytes): (r: Bytes)
    ensures r != [] && r[0] == 34
  {
    QuotedText(e.name, GapText(e.middle, [58] + SpacedText(e.value, tail)))
  }

  lemma {:induction false} ReadsMembers(f: Flags, ms: seq<Entry>, n: U32, total: U32, close: Close, tail: Bytes)
    requires ms != [] && MembersOk(f, ms) && CloseOk(f, false, close) && total == (n + |ms|) % 0x1_0000_0000
    ensures Members(f, FromKey(ms[0], MoreMembers(ms[1..], close, tail)), n)
         == Outcome(MembersEvents(ms, total), true, tail)
    decreases ms, 2
  {
    hide GapOk, Skip, GapText, DocText, CloseOk, Quoted, QuotedText, AfterKey;
    var e, more := ms[0], MoreMembers(ms[1..], close, tail);
    ReadsQuoted(e.name, e.key, GapText(e.middle, [58] + SpacedText(e.value, more)), true);
    ReadsAfterKey(f, ms, n, total, close, tail);
    assert Members(f, FromKey(e, more), n) == Then([Key(e.key)],
        AfterKey(f, GapText(e.middle, [58] + SpacedText(e.value, more)), n));
  }

  lemma {:induction false} ReadsAfterKey(f: Flags, ms: seq<Entry>, n: U32, total: U32, close: Close, tail: Bytes)
    requires ms != [] && MembersOk(f, ms) && CloseOk(f, false, close) && total == (n + |ms|) % 0x1_0000_0000
    ensures var e, more := ms[0], MoreMembers(ms[1..], close, tail);
      AfterKey(f, GapText(e.middle, [58] + SpacedText(e.value, more)), n)
        == Outcome(DocEvents(e.value.doc) + MembersEvents(ms[1..], total), true, tail)
    decreases ms, 1
  {
    hide GapOk, GapText, DocText, CloseOk, AfterKey, AfterMember, MembersEvents, Value;
    var x, more := ms[0].value, MoreMembers(ms[1..], close, tail);
    assert EntryOk(f, ms[0]);
    assert SpacedOk(f, x);
    CloseStarts(f, close, 125, tail);
    GapEndsNumber(f.comments, x.after, false, more);
    SkipsColon(f, ms[0].middle, x, n, more);
    ReadsDoc(f, x.doc, GapText(x.after, more));
    ReadsMoreMembers(f, x.after, ms[1..], Add(n, 1), total, close, tail);
  }

  lemma {:induction false} SkipsColon(f: Flags, middle: Gap, x: Spaced, n: U32, tail: Bytes)
    requires GapOk(f.comments, middle, false) && SpacedOk(f, x)
    ensures var v := Value(f, DocText(x.doc, GapText(x.after, tail)));
      AfterKey(f, GapText(middle, [58] + SpacedText(x, tail)), n) ==
        if !v.ok then v else Then(v.events, AfterMember(f, v.rest, Add(n, 1)))
  {
    hide GapOk, Skip, DocOk, DocText, Value, AfterMember;
    var s := [58] + SpacedText(x, tail);
    DocStarts(f, x.doc, GapText(x.after, tail));
    SkipsHere(f, middle, s);
    TailOfPrefixed(58, SpacedText(x, tail));
    SkipsHere(f, x.before, DocText(x.doc, GapText(x.after, tail)));
  }

  lemma {:induction false} ReadsMoreMembers(f: Flags, after: Gap, ms: seq<Entry>, n: U32, total: U32, close: Close,
      tail: Bytes)
    requires GapOk(f.comments, after, false) && MembersOk(f, ms) && CloseOk(f, false, close)
    requires total == (n + |ms|) % 0x1_0000_0000
    ensures AfterMember(f, GapText(after, MoreMembers(ms, close, tail)), n)
         == Outcome(MembersEvents(ms, total), true, tail)
    decreases ms, 3
  {
    hide GapOk, Skip, GapText, DocText, Members, QuotedText;
    var more := MoreMembers(ms, close, tail);
    CloseStarts(f, close, 125, tail);
    SkipsHere(f, after, more);
    if ms == [] {
      ReadsClose(f, close, 125, tail);
    } else {
      var rest := FromKey(ms[0], MoreMembers(ms[1..], close, tail));
      TailOfPrefixed(44, EntryText(ms[0], MoreMembers(ms[1..], close, tail)));
      assert more[1..] == GapText(ms[0].before, rest);
      SkipsHere(f, ms[0].before, rest);
      ReadsMembers(f, ms, n, total, close, tail);
    }
  }

  // And no other text is

  lemma {:induction false} LeafIs(f: Flags, s: Bytes) returns (d: Doc)
    requires Scalar(f, s).ok && !f.nanAndInf
    ensures DocOk(f, d) && !d.List? && !d.Dict? && s == DocText(d, Scalar(f, s).rest)
    ensures Scalar(f, s).events == DocEvents(d)
  {
    hide Number, Chars, StringMeans, NumberReads, NumeralOk, NumeralText, ItemsOk, Classify;
    var c := Peek(s);
    var rest := Scalar(f, s).rest;
    if c == 110 {
      d := Nil;
      LiteralIs(s, Text("null"), [110, 117, 108, 108]);
    } else if c == 116 {
      d := Truth(true);
      LiteralIs(s, Text("true"), [116, 114, 117, 101]);
    } else if c == 102 {
      d := Truth(false);
      LiteralIs(s, Text("false"), [102, 97, 108, 115, 101]);
    } else if c == QUOTE {
      var items := QuotedIs(s, false);
      d := Str(items, Chars(s[1..]).text);
    } else {
      var n := NumberIsNumeral(f, s);
      ClassifyMeans(f, n, rest);
      d := Num(n, Number(f, s).event);
    }
  }

  lemma LiteralIs(s: Bytes, name: Bytes, literal: Bytes)
    requires name == literal && name <= s
    ensures s == literal + s[|name|..]
  {
  }

  lemma {:induction false} QuotedIs(s: Bytes, key: bool) returns (items: seq<Item>)
    requires Peek(s) == QUOTE && Quoted(s, key).ok
    ensures ItemsOk(items) && StringMeans(items, Chars(s[1..]).text)
    ensures s == QuotedText(items, Quoted(s, key).rest)
  {
    hide Chars, ItemsOk, StringMeans;
    items := StringIsItems(s[1..]);
    StringBytesMean(items);
    assert s == [34] + s[1..];
  }

  lemma Opened(c: Byte, s: Bytes)
    requires Peek(s) == c && c != 0
    ensures s == [c] + s[1..]
  {
  }

  lemma {:induction false} DocIs(f: Flags, s: Bytes) returns (d: Doc)
    requires Value(f, s).ok && !f.nanAndInf
    ensures DocOk(f, d) && s == DocText(d, Value(f, s).rest) && Value(f, s).events == DocEvents(d)
    decreases |s|, 1
  {
    if Peek(s) == LBRACE {
      var members, close := DictIs(f, s[1..]);
      d := Dict(members, close);
      Opened(123, s);
    } else if Peek(s) == LBRACKET {
      var elements, close := ListIs(f, s[1..]);
      d := List(elements, close);
      Opened(91, s);
    } else {
      d := LeafIs(f, s);
    }
  }

  lemma {:induction false} ListIs(f: Flags, s: Bytes) returns (es: seq<Spaced>, close: Close)
    requires Array(f, s).ok && !f.nanAndInf
    ensures CloseOk(f, es == [], close) && ElementsOk(f, es) && s == ListText(es, close, Array(f, s).rest)
    ensures Array(f, s).events == ElementsEvents(es, |es| % 0x1_0000_0000)
    decreases |s|, 3
  {
    hide DocText, DocOk, DocEvents, GapOk;
    var g := InnerGapIs(f, s);
    var r := Skip(f, s).rest;
    if Peek(r) == RBRACKET {
      es, close := [], Close(false, g);
      Opened(93, r);
      assert [] + GapText(g, r) == GapText(g, r);
    } else {
      var d, after, more, c := ElementIs(f, r, 0);
      es, close := [Spaced(g, d, after)] + more, c;
      assert es[1..] == more;
    }
  }

  // A gap before anything but the end of the text.
  lemma {:induction false} InnerGapIs(f: Flags, s: Bytes) returns (g: Gap)
    requires Skip(f, s).Skipped?
    ensures s == GapText(g, Skip(f, s).rest) && AtToken(f.comments, Skip(f, s).rest)
    ensures Peek(Skip(f, s).rest) != 0 ==> GapOk(f.comments, g, false)
  {
    g := GapIs(f, s);
  }

  lemma {:induction false} ElementIs(f: Flags, s: Bytes, n: U32)
      returns (d: Doc, after: Gap, es: seq<Spaced>, close: Close)
    requires Elements(f, s, n).ok && !f.nanAndInf
    ensures DocOk(f, d) && GapOk(f.comments, after, false) && ElementsOk(f, es) && CloseOk(f, false, close)
    ensures s == DocText(d, GapText(after, MoreElements(es, close, Elements(f, s, n).rest)))
    ensures Elements(f, s, n).events == DocEvents(d) + ElementsEvents(es, (n + 1 + |es|) % 0x1_0000_0000)
    decreases |s|, 2
  {
    hide DocText, DocOk, DocEvents, GapOk, CloseOk, GapText, MoreElements;
    d := DocIs(f, s);
    after, es, close := MoreElementsAre(f, Value(f, s).rest, Add(n, 1));
    assert (Add(n, 1) + |es|) % 0x1_0000_0000 == (n + 1 + |es|) % 0x1_0000_0000;
  }

  lemma {:induction false} MoreElementsAre(f: Flags, s: Bytes, n: U32)
      returns (after: Gap, es: seq<Spaced>, close: Close)
    requires AfterElement(f, s, n).ok && !f.nanAndInf
    ensures GapOk(f.comments, after, false) && ElementsOk(f, es) && CloseOk(f, false, close)
    ensures s == GapText(after, MoreElements(es, close, AfterElement(f, s, n).rest))
    ensures AfterElement(f, s, n).events == ElementsEvents(es, (n + |es|) % 0x1_0000_0000)
    decreases |s|, 2
  {
    hide DocText, DocOk, DocEvents, GapOk, Elements;
    after := InnerGapIs(f, s);
    var r := Skip(f, s).rest;
    var o := AfterElement(f, s, n);
    if Peek(r) == COMMA {
      Opened(44, r);
      var g := InnerGapIs(f, r[1..]);
      var t := Skip(f, r[1..]).rest;
      if f.trailingCommas && Peek(t) == RBRACKET {
        es, close := [], Close(true, g);
        Opened(93, t);
      } else {
        assert o == Elements(f, t, n);
        var d, next, more, c := ElementIs(f, t, n);
        NotEnd(f, t, n);
        es, close := [Spaced(g, d, next)] + more, c;
        assert es[1..] == more;
        assert r == [44] + SpacedText(es[0], MoreElements(more, c, o.rest));
      }
    } else {
      es, close := [], Close(false, []);
      NoGap(f.comments);
      Opened(93, r);
      assert [] + r == r;
    }
  }

  lemma NoGap(comments: bool)
    ensures GapOk(comments, [], false)
  {
  }

  // An accepted element is not at the end of the text.
  lemma {:induction false} NotEnd(f: Flags, s: Bytes, n: U32)
    requires Elements(f, s, n).ok
    ensures Peek(s) != 0
  {
    if Peek(s) == 0 {
      NoNumber(f, s);
    }
  }

  lemma {:induction false} DictIs(f: Flags, s: Bytes) returns (ms: seq<Entry>, close: Close)
    requires Object(f, s).ok && !f.nanAndInf
    ensures CloseOk(f, ms == [], close) && MembersOk(f, ms) && s == DictText(ms, close, Object(f, s).rest)
    ensures Object(f, s).events == MembersEvents(ms, |ms| % 0x1_0000_0000)
    decreases |s|, 4
  {
    hide DocText, DocOk, DocEvents, GapOk, Members, QuotedText;
    var g := InnerGapIs(f, s);
    var r := Skip(f, s).rest;
    if Peek(r) == RBRACE {
      ms, close := [], Close(false, g);
      Opened(125, r);
      assert [] + GapText(g, r) == GapText(g, r);
    } else {
      MemberQuoted(f, r, 0);
      ms, close := MembersAre(f, g, r, 0);
      assert s == GapText(g, FromKey(ms[0], MoreMembers(ms[1..], close, Object(f, s).rest)));
    }
  }

  lemma MemberQuoted(f: Flags, s: Bytes, n: U32)
    requires Members(f, s, n).ok
    ensures Peek(s) == QUOTE
  {
  }

  lemma KeyRead(s: Bytes)
    requires Peek(s) == QUOTE && Quoted(s, true).ok
    ensures Chars(s[1..]).Decoded? && Quoted(s, true).events == [Key(Chars(s[1..]).text)]
    ensures |Quoted(s, true).rest| < |s|
  {
  }

  // Members from a name on; `g` is what stands before it.
  lemma {:induction false} MembersAre(f: Flags, g: Gap, s: Bytes, n: U32) returns (ms: seq<Entry>, close: Close)
    requires Members(f, s, n).ok && !f.nanAndInf && GapOk(f.comments, g, false)
    ensures ms != [] && ms[0].before == g && MembersOk(f, ms) && CloseOk(f, false, close)
    ensures s == FromKey(ms[0], MoreMembers(ms[1..], close, Members(f, s, n).rest))
    ensures Members(f, s, n).events == MembersEvents(ms, (n + |ms|) % 0x1_0000_0000)
    decreases |s|, 3
  {
    hide GapOk, QuotedText, AfterKey, DocText, MoreMembers, CloseOk, SpacedText, SpacedOk, StringMeans, GapText, Quoted,
      DocEvents, Chars, ItemsOk;
    var key := Quoted(s, true);
    KeyRead(s);
    var name := QuotedIs(s, true);
    var text := Chars(s[1..]).text;
    var middle, value, more, c := AfterKeyIs(f, key.rest, n);
    var e := Entry(g, name, text, middle, value);
    ms, close := [e] + more, c;
    assert ms[0] == e && ms[1..] == more;
    assert EntryOk(f, e);
    assert Members(f, s, n) == Then([Key(text)], AfterKey(f, key.rest, n));
  }

  lemma {:induction false} AfterKeyIs(f: Flags, s: Bytes, n: U32)
      returns (middle: Gap, value: Spaced, ms: seq<Entry>, close: Close)
    requires AfterKey(f, s, n).ok && !f.nanAndInf
    ensures GapOk(f.comments, middle, false) && SpacedOk(f, value) && MembersOk(f, ms) && CloseOk(f, false, close)
    ensures s == GapText(middle, [58] + SpacedText(value, MoreMembers(ms, close, AfterKey(f, s, n).rest)))
    ensures AfterKey(f, s, n).events == DocEvents(value.doc) + MembersEvents(ms, (n + 1 + |ms|) % 0x1_0000_0000)
    decreases |s|, 2
  {
    hide GapOk, DocText, DocEvents, DocOk, CloseOk, GapText, AfterMember, MoreMembers, Value, MembersOk, MembersEvents;
    middle := InnerGapIs(f, s);
    var r := Skip(f, s).rest;
    Opened(58, r);
    var before := InnerGapIs(f, r[1..]);
    var t := Skip(f, r[1..]).rest;
    ValueNotEnd(f, t);
    var d := DocIs(f, t);
    var after, more, c := MoreMembersAre(f, Value(f, t).rest, Add(n, 1));
    value, ms, close := Spaced(before, d, after), more, c;
    assert (Add(n, 1) + |ms|) % 0x1_0000_0000 == (n + 1 + |ms|) % 0x1_0000_0000;
  }

  lemma {:induction false} MoreMembersAre(f: Flags, s: Bytes, n: U32)
      returns (after: Gap, ms: seq<Entry>, close: Close)
    requires AfterMember(f, s, n).ok && !f.nanAndInf
    ensures GapOk(f.comments, after, false) && MembersOk(f, ms) && CloseOk(f, false, close)
    ensures s == GapText(after, MoreMembers(ms, close, AfterMember(f, s, n).rest))
    ensures AfterMember(f, s, n).events == MembersEvents(ms, (n + |ms|) % 0x1_0000_0000)
    decreases |s|, 4
  {
    hide DocText, DocOk, DocEvents, GapOk, Members, QuotedText;
    after := InnerGapIs(f, s);
    var r := Skip(f, s).rest;
    var o := AfterMember(f, s, n);
    if Peek(r) == COMMA {
      Opened(44, r);
      var g := InnerGapIs(f, r[1..]);
      var t := Skip(f, r[1..]).rest;
      if f.trailingCommas && Peek(t) == RBRACE {
        ms, close := [], Close(true, g);
        Opened(125, t);
      } else {
        assert o == Members(f, t, n);
        MemberQuoted(f, t, n);
        ms, close := MembersAre(f, g, t, n);
        assert r == [44] + EntryText(ms[0], MoreMembers(ms[1..], close, o.rest));
      }
    } else {
      ms, close := [], Close(false, []);
      NoGap(f.comments);
      Opened(125, r);
      assert [] + r == r;
    }
  }

  // An accepted value is not at the end of the text.
  lemma {:induction false} ValueNotEnd(f: Flags, s: Bytes)
    requires Value(f, s).ok
    ensures Peek(s) != 0
  {
    if Peek(s) == 0 {
      NoNumber(f, s);
    }
  }

  // The whole text

  // A text is a value with gaps around it; a character 0 ends it.
  predicate IsText(f: Flags, x: Spaced, rest: Bytes, s: Bytes) {
    && GapOk(f.comments, x.before, false) && DocOk(f, x.doc) && GapOk(f.comments, x.after, true)
    && Ends(rest) && s == SpacedText(x, rest)
  }

  lemma {:induction false} ReadsText(f: Flags, x: Spaced, rest: Bytes, s: Bytes)
    requires IsText(f, x, rest, s) && !f.stopWhenDone
    ensures Recursive(f, s) == Outcome(DocEvents(x.doc), true, rest)
  {
    hide GapOk, Skip, DocText, DocOk, DocEvents, Value, GapText;
    var tail := GapText(x.after, rest);
    DocStarts(f, x.doc, tail);
    SkipsHere(f, x.before, DocText(x.doc, tail));
    GapEndsNumber(f.comments, x.after, true, rest);
    ReadsDoc(f, x.doc, tail);
    SkipsLast(f, x.after, rest);
    assert DocEvents(x.doc) + [] == DocEvents(x.doc);
  }

  lemma {:induction false} SkipsLast(f: Flags, g: Gap, rest: Bytes)
    requires GapOk(f.comments, g, true) && Ends(rest)
    ensures Skip(f, GapText(g, rest)) == Skipped(rest)
  {
    SkipsGap(f, g, rest);
  }

  lemma {:induction false} TextIs(f: Flags, s: Bytes) returns (x: Spaced)
    requires Recursive(f, s).ok && !f.nanAndInf && !f.stopWhenDone
    ensures IsText(f, x, Recursive(f, s).rest, s)
  {
    hide GapOk, Skip, DocText, DocOk, Value, GapText;
    var before := InnerGapIs(f, s);
    var r := Skip(f, s).rest;
    var d := DocIs(f, r);
    var after := GapIs(f, Value(f, r).rest);
    x := Spaced(before, d, after);
  }

  // Both parsers accept exactly the texts of the grammar, and report what these contain.
  lemma {:induction false} AcceptsExactly(f: Flags, s: Bytes)
    requires !f.nanAndInf && !f.stopWhenDone
    ensures Recursive(f, s).ok <==> exists x, rest :: IsText(f, x, rest, s)
    ensures forall x, rest :: IsText(f, x, rest, s) ==>
      Recursive(f, s) == Iterative(f, s) == Outcome(DocEvents(x.doc), true, rest)
  {
    hide IsText;
    ParsersAgree(f, s);
    if Recursive(f, s).ok {
      var x := TextIs(f, s);
    }
    forall x, rest | IsText(f, x, rest, s) ensures Recursive(f, s) == Outcome(DocEvents(x.doc), true, rest) {
      ReadsText(f, x, rest, s);
    }
  }
}
