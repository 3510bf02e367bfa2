/** `PrettyWriter` (prettywriter.h) and the leaves it takes from `Writer` (writer.h). */
module Printing {
  import opened Bytes
  import opened Sax
  import Lexer

  const SPACE: Byte := 0x20

  /** `SetIndent` and `SetFormatOptions`. */
  datatype Style = Style(indentChar: Byte, indentCharCount: nat, singleLineArray: bool)

  predicate IsStyle(f: Style) {
    f.indentChar == 0x20 || f.indentChar == 0x09 || f.indentChar == 0x0A || f.indentChar == 0x0D
  }

  /** One container that is being written. */
  datatype Level = Level(inArray: bool, valueCount: nat)

  datatype Output = Output(text: Text, levels: seq<Level>, hasRoot: bool)

  /** A line break and the indentation for `depth` levels. */
  function NewLine(f: Style, depth: nat): Text {
    [Lexer.NEWLINE] + Repeat(f.indentChar, depth * f.indentCharCount)
  }

  /** What `PrettyPrefix` puts in front of a value, `depth` levels deep. */
  function Lead(f: Style, level: Level, depth: nat): Text {
    if level.inArray then
      (if level.valueCount > 0 then [Lexer.COMMA] + (if f.singleLineArray then [SPACE] else []) else [])
      + (if f.singleLineArray then [] else NewLine(f, depth))
    else if level.valueCount % 2 == 1 then [Lexer.COLON, SPACE]
    else (if level.valueCount > 0 then [Lexer.COMMA] else []) + NewLine(f, depth)
  }

  function Bumped(levels: seq<Level>): (r: seq<Level>)
    ensures |r| == |levels|
  {
    if levels == [] then []
    else
      var k := |levels| - 1;
      levels[k := Level(levels[k].inArray, levels[k].valueCount + 1)]
  }

  /** `PrettyPrefix`; none where one of its assertions fails. */
  function Prefixed(f: Style, w: Output, isString: bool): Option<Output> {
    if w.levels == [] then if w.hasRoot then None else Some(w.(hasRoot := true))
    else
      var top := w.levels[|w.levels| - 1];
      if !top.inArray && top.valueCount % 2 == 0 && !isString then None
      else Some(Output(w.text + Lead(f, top, |w.levels|), Bumped(w.levels), w.hasRoot))
  }

  // Leaves

  /** The decimal digits of a number, without leading zeros. */
  function DigitsOf(n: nat): (s: Text)
    ensures s != [] && Lexer.AllDigits(s) && Lexer.Decimal(s) == n
    ensures s[0] == 0x30 ==> |s| == 1
  {
    if n < 10 then
      assert [0x30 + n][..0] == [];
      [0x30 + n]
    else
      var s := DigitsOf(n / 10) + [0x30 + n % 10];
      assert s[..|s| - 1] == DigitsOf(n / 10);
      assert Lexer.Decimal(DigitsOf(n / 10)) != 0;
      s
  }

  function IntegerText(i: int): Text {
    if i < 0 then [Lexer.MINUS] + DigitsOf(-i) else DigitsOf(i)
  }

  const LOWER_U: Byte := 0x75

  /** The `escape` table of `WriteString`; 0 where a byte is written as it is. */
  function EscapeLetter(c: Byte): Byte {
    if c == 0x08 then 0x62
    else if c == 0x09 then 0x74
    else if c == 0x0A then 0x6E
    else if c == 0x0C then 0x66
    else if c == 0x0D then 0x72
    else if c < 0x20 then LOWER_U
    else if c == 0x22 || c == 0x5C then c
    else 0
  }

  function HexDigit(n: nat): Byte
    requires n < 16
  {
    if n < 10 then 0x30 + n else 0x41 + n - 10
  }

  function EscapedByte(c: Byte): Text {
    var letter := EscapeLetter(c);
    if letter == 0 then [c]
    else
      [Lexer.BACKSLASH, letter]
      + (if letter == LOWER_U then [0x30, 0x30, HexDigit(c / 16), HexDigit(c % 16)] else [])
  }

  function Escaped(s: Text): Text {
    if s == [] then [] else Escaped(s[..|s| - 1]) + EscapedByte(s[|s| - 1])
  }

  function QuotedString(s: Text): Text {
    [Lexer.QUOTE] + (Escaped(s) + [Lexer.QUOTE])
  }

  /** What the writer puts for a leaf. A raw number is written as a string; a double as
      the literal that it stands for. */
  function LeafText(event: Event): Text
    requires IsScalar(event) || event.Key?
  {
    match event
    case Null => Lexer.NULL_NAME
    case Bool(b) => if b then Lexer.TRUE_NAME else Lexer.FALSE_NAME
    case Int(i) => IntegerText(i)
    case Uint(i) => IntegerText(i)
    case Int64(i) => IntegerText(i)
    case Uint64(i) => IntegerText(i)
    case Double(d) => d
    case RawNumber(s) => QuotedString(s)
    case String(s) => QuotedString(s)
    case Key(s) => QuotedString(s)
  }

  function Opened(w: Output, inArray: bool): Output {
    Output(w.text + [if inArray then Lexer.LBRACKET else Lexer.LBRACE], w.levels + [Level(inArray, 0)], w.hasRoot)
  }

  /** What stands between the last child and the closing bracket. */
  function Trail(f: Style, level: Level, depth: nat): Text {
    if level.valueCount == 0 || (level.inArray && f.singleLineArray) then [] else NewLine(f, depth)
  }

  function Closed(f: Style, w: Output, inArray: bool): Option<Output> {
    if w.levels == [] || w.levels[|w.levels| - 1].inArray != inArray then None
    else
      var k := |w.levels| - 1;
      Some(Output(w.text + Trail(f, w.levels[k], k) + [if inArray then Lexer.RBRACKET else Lexer.RBRACE],
                  w.levels[..k], w.hasRoot))
  }

  /** One event; none where an assertion of the source fails. */
  function Written(f: Style, w: Output, event: Event): Option<Output> {
    match event
    case EndObject(_) => Closed(f, w, false)
    case EndArray(_) => Closed(f, w, true)
    case StartObject => if Prefixed(f, w, false).None? then None else Some(Opened(Prefixed(f, w, false).value, false))
    case StartArray => if Prefixed(f, w, false).None? then None else Some(Opened(Prefixed(f, w, false).value, true))
    case _ =>
      match Prefixed(f, w, event.Key? || event.String?)
      case None => None
      case Some(v) => Some(v.(text := v.text + LeafText(event)))
  }

  function WrittenAll(f: Style, w: Output, events: seq<Event>): Option<Output> {
    if events == [] then Some(w)
    else match WrittenAll(f, w, events[..|events| - 1])
      case None => None
      case Some(v) => Written(f, v, events[|events| - 1])
  }

  class PrettyWriter {
    const style: Style
    var os: Text
    var levelStack: seq<Level>
    var hasRoot: bool

    ghost function Out(): Output
      reads this
    {
      Output(os, levelStack, hasRoot)
    }

    constructor (style: Style)
      requires IsStyle(style)
      ensures this.style == style && Out() == Output([], [], false)
    {
      this.style := style;
      os, levelStack, hasRoot := [], [], false;
    }

    method Put(c: Byte)
      modifies this`os
      ensures os == old(os) + [c]
    {
      os := os + [c];
    }

    method PutAll(s: Text)
      modifies this`os
      ensures os == old(os) + s
    {
      for i := 0 to |s|
        invariant os == old(os) + s[..i]
      {
        Put(s[i]);
      }
    }

    method WriteIndent()
      modifies this`os
      ensures os == old(os) + Repeat(style.indentChar, |levelStack| * style.indentCharCount)
    {
      var count := |levelStack| * style.indentCharCount;
      for i := 0 to count
        invariant os == old(os) + Repeat(style.indentChar, i)
      {
        Put(style.indentChar);
      }
    }

    method PrettyPrefix(isString: bool)
      requires Prefixed(style, Out(), isString).Some?
      modifies this
      ensures Some(Out()) == Prefixed(style, old(Out()), isString)
    {
      if |levelStack| != 0 {
        var level := levelStack[|levelStack| - 1];
        PutLead(level);
        if !level.inArray && level.valueCount % 2 == 0 {
          assert isString;
        }
        levelStack := levelStack[|levelStack| - 1 := level.(valueCount := level.valueCount + 1)];
      } else {
        assert !hasRoot;
        hasRoot := true;
      }
    }

    method PutLead(level: Level)
      modifies this`os
      ensures os == old(os) + Lead(style, level, |levelStack|)
    {
      if level.inArray {
        if level.valueCount > 0 {
          Put(Lexer.COMMA);
          if style.singleLineArray { Put(SPACE); }
        }
        if !style.singleLineArray {
          Put(Lexer.NEWLINE);
          WriteIndent();
        }
      } else {
        if level.valueCount > 0 {
          if level.valueCount % 2 == 0 {
            Put(Lexer.COMMA);
            Put(Lexer.NEWLINE);
          } else {
            Put(Lexer.COLON);
            Put(SPACE);
          }
        } else {
          Put(Lexer.NEWLINE);
        }
        if level.valueCount % 2 == 0 { WriteIndent(); }
      }
    }

    /** The loop body of `WriteString`. */
    method PutEscaped(c: Byte)
      modifies this`os
      ensures os == old(os) + EscapedByte(c)
    {
      var letter := EscapeLetter(c);
      if letter != 0 {
        Put(Lexer.BACKSLASH);
        Put(letter);
        if letter == LOWER_U {
          Put(0x30);
          Put(0x30);
          Put(HexDigit(c / 16));
          Put(HexDigit(c % 16));
        }
      } else {
        Put(c);
      }
    }

    method WriteString(s: Text)
      modifies this`os
      ensures os == old(os) + QuotedString(s)
    {
      hide EscapedByte;
      Put(Lexer.QUOTE);
      for i := 0 to |s|
        invariant os == old(os) + [Lexer.QUOTE] + Escaped(s[..i])
      {
        PutEscaped(s[i]);
        assert s[..i + 1][..i] == s[..i];
        assert Escaped(s[..i + 1]) == Escaped(s[..i]) + EscapedByte(s[i]);
      }
      Put(Lexer.QUOTE);
      assert s[..|s|] == s;
    }

    /** The handler functions for everything but brackets. */
    method Leaf(event: Event)
      requires (IsScalar(event) || event.Key?) && Written(style, Out(), event).Some?
      modifies this
      ensures Some(Out()) == Written(style, old(Out()), event)
    {
      hide QuotedString, IntegerText, Prefixed;
      PrettyPrefix(event.Key? || event.String?);
      match event
      case Null => PutAll(Lexer.NULL_NAME);
      case Bool(b) => PutAll(if b then Lexer.TRUE_NAME else Lexer.FALSE_NAME);
      case Int(i) => PutAll(IntegerText(i));
      case Uint(i) => PutAll(IntegerText(i));
      case Int64(i) => PutAll(IntegerText(i));
      case Uint64(i) => PutAll(IntegerText(i));
      case Double(d) => PutAll(d);
      case RawNumber(s) => WriteString(s);
      case String(s) => WriteString(s);
      case Key(s) => WriteString(s);
    }

    method Start(inArray: bool)
      requires Prefixed(style, Out(), false).Some?
      modifies this
      ensures Out() == Opened(Prefixed(style, old(Out()), false).value, inArray)
    {
      PrettyPrefix(false);
      levelStack := levelStack + [Level(inArray, 0)];
      Put(if inArray then Lexer.LBRACKET else Lexer.LBRACE);
    }

    method End(inArray: bool)
      requires Closed(style, Out(), inArray).Some?
      modifies this
      ensures Some(Out()) == Closed(style, old(Out()), inArray)
    {
      var top := levelStack[|levelStack| - 1];
      assert top.inArray == inArray;
      levelStack := levelStack[..|levelStack| - 1];
      if top.valueCount != 0 && !(inArray && style.singleLineArray) {
        Put(Lexer.NEWLINE);
        WriteIndent();
        assert os == old(os) + NewLine(style, |levelStack|);
      }
      assert os == old(os) + Trail(style, top, |levelStack|);
      Put(if inArray then Lexer.RBRACKET else Lexer.RBRACE);
    }

    method Handle(event: Event)
      requires Written(style, Out(), event).Some?
      modifies this
      ensures Some(Out()) == Written(style, old(Out()), event)
    {
      match event
      case StartObject => Start(false);
      case StartArray => Start(true);
      case EndObject(_) => End(false);
      case EndArray(_) => End(true);
      case _ => Leaf(event);
    }
  }
}
