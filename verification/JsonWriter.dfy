/** The writer as the code has it: it appends to its output, keeps a stack of levels and counts the
    values of each. Every method is proved against the writer of `JsonTree`. */
module JsonWriter {
  import opened Sequences
  import opened Serial
  import opened JsonText
  import opened JsonGrammar
  import opened Itoa
  import opened JsonTree

  class Writer {
    var os: Bytes
    var levelStack: seq<Level>
    var hasRoot: bool

    function View(): Written
      reads this
    {
      Written(os, levelStack, hasRoot)
    }

    constructor ()
      ensures View() == FRESH
    {
      os := [];
      levelStack := [];
      hasRoot := false;
    }

    // What goes before a value.
    method Prefix(ghost e: Event)
      requires Permits(View(), e) && !e.EndObject? && !e.EndArray?
      modifies this
      ensures View() == Prefixed(old(View()))
    {
      if levelStack != [] {
        var level := levelStack[0];
        if level.valueCount > 0 {
          if level.inArray {
            os := os + [COMMA];
          } else {
            os := os + [if level.valueCount % 2 == 0 then COMMA else COLON];
          }
        } else {
          assert os + [] == os;
        }
        levelStack := [level.(valueCount := level.valueCount + 1)] + levelStack[1..];
      } else {
        hasRoot := true;
      }
    }

    method Null()
      requires Permits(View(), Event.Null)
      modifies this
      ensures View() == Emit(old(View()), Event.Null)
    {
      Prefix(Event.Null);
      os := os + Text("null");
    }

    method Bool(b: bool)
      requires Permits(View(), Event.Bool(b))
      modifies this
      ensures View() == Emit(old(View()), Event.Bool(b))
    {
      Prefix(Event.Bool(b));
      os := os + if b then Text("true") else Text("false");
    }

    // The digits of an integer go through a buffer of the size the type needs.

    method Int(i: int)
      requires Permits(View(), Event.Int(i)) && -0x8000_0000 <= i < 0x8000_0000
      modifies this
      ensures View() == Emit(old(View()), Event.Int(i))
    {
      Prefix(Event.Int(i));
      var buffer := new Byte[11](_ => 0);
      var end := I32ToA(i, buffer, 0);
      assert buffer[..0] + IntText(i) == IntText(i);
      os := os + buffer[..end];
    }

    method Uint(u: U32)
      requires Permits(View(), Event.Uint(u))
      modifies this
      ensures View() == Emit(old(View()), Event.Uint(u))
    {
      Prefix(Event.Uint(u));
      var buffer := new Byte[10](_ => 0);
      var end := U32ToA(u, buffer, 0);
      assert buffer[..0] + Digits(u) == Digits(u);
      os := os + buffer[..end];
    }

    method Int64(i: int)
      requires Permits(View(), Event.Int64(i)) && -0x8000_0000_0000_0000 <= i < 0x8000_0000_0000_0000
      modifies this
      ensures View() == Emit(old(View()), Event.Int64(i))
    {
      Prefix(Event.Int64(i));
      var buffer := new Byte[21](_ => 0);
      var end := I64ToA(i, buffer, 0);
      assert buffer[..0] + IntText(i) == IntText(i);
      os := os + buffer[..end];
    }

    method Uint64(u: U64)
      requires Permits(View(), Event.Uint64(u))
      modifies this
      ensures View() == Emit(old(View()), Event.Uint64(u))
    {
      Prefix(Event.Uint64(u));
      var buffer := new Byte[20](_ => 0);
      var end := U64ToA(u, buffer, 0);
      assert buffer[..0] + Digits(u) == Digits(u);
      os := os + buffer[..end];
    }

    // The letter after the backslash; 0 for a character that needs none.
    static function EscapeLetter(c: Byte): Byte {
      if c == QUOTE || c == BACKSLASH then c
      else if c == 8 then 98
      else if c == TAB then 116
      else if c == LF then 110
      else if c == 12 then 102
      else if c == CR then 114
      else if c < 0x20 then 117
      else 0
    }

    method WriteString(str: Bytes)
      modifies `os
      ensures os == old(os) + StringText(str)
    {
      os := os + [QUOTE];
      var i := 0;
      while i < |str|
        invariant 0 <= i <= |str|
        invariant os + EscapedAll(str[i..]) == old(os) + ([QUOTE] + EscapedAll(str))
      {
        var c := str[i];
        ghost var before := os;
        if EscapeLetter(c) != 0 {
          os := os + [BACKSLASH, EscapeLetter(c)];
          if EscapeLetter(c) == 117 {
            os := os + [48, 48, HexDigit(c / 16), HexDigit(c % 16)];
          }
        } else {
          os := os + [c];
        }
        assert os == before + Escaped(c);
        assert str[i..][1..] == str[i + 1..];
        Associate(before, Escaped(c), EscapedAll(str[i + 1..]));
        i := i + 1;
      }
      Associate(old(os), [QUOTE] + EscapedAll(str), [QUOTE]);
      os := os + [QUOTE];
    }

    method String(str: Bytes)
      requires Permits(View(), Event.String(str))
      modifies this
      ensures View() == Emit(old(View()), Event.String(str))
    {
      Prefix(Event.String(str));
      WriteString(str);
    }

    method Key(str: Bytes)
      requires Permits(View(), Event.Key(str))
      modifies this
      ensures View() == Emit(old(View()), Event.Key(str))
    {
      String(str);
    }

    method StartObject()
      requires Permits(View(), Event.StartObject)
      modifies this
      ensures View() == Emit(old(View()), Event.StartObject)
    {
      Prefix(Event.StartObject);
      levelStack := [Level(false, 0)] + levelStack;
      os := os + [LBRACE];
    }

    method EndObject(memberCount: U32)
      requires Permits(View(), Event.EndObject(memberCount))
      modifies this
      ensures View() == Emit(old(View()), Event.EndObject(memberCount))
    {
      levelStack := levelStack[1..];
      os := os + [RBRACE];
    }

    method StartArray()
      requires Permits(View(), Event.StartArray)
      modifies this
      ensures View() == Emit(old(View()), Event.StartArray)
    {
      Prefix(Event.StartArray);
      levelStack := [Level(true, 0)] + levelStack;
      os := os + [LBRACKET];
    }

    method EndArray(elementCount: U32)
      requires Permits(View(), Event.EndArray(elementCount))
      modifies this
      ensures View() == Emit(old(View()), Event.EndArray(elementCount))
    {
      levelStack := levelStack[1..];
      os := os + [RBRACKET];
    }
  }
}
