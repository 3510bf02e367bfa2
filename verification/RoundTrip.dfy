/** Printing a value with `PrettyWriter` and parsing the text gives the value back. */
module RoundTrip {
  import opened Bytes
  import opened Sax
  import opened Values
  import opened Building
  import opened Documents
  import opened Printing
  import ReaderObject
  import Lexer
  import Grammar
  import Leaves
  import Numerals
  import Completeness
  import Recursive
  import Iterative
  import Agreement
  import Overrun
  import Utf8

  // Strings

  /** The escaped or raw piece that one byte is written as. */
  function ByteItem(c: Byte): Grammar.Item {
    var letter := EscapeLetter(c);
    if letter == 0 then Grammar.Raw([c])
    else if letter == LOWER_U then Grammar.Unicode([0x30, 0x30, HexDigit(c / 16), HexDigit(c % 16)])
    else Grammar.Escape(letter)
  }

  /** No other piece of the grammar says a byte in fewer bytes than the writer's, and one
      that takes as few but six, the upper-case hexadecimal form, is the same. */
  lemma ShortestWritten(c: Byte, item: Grammar.Item)
    requires Grammar.IsItem(item, false) && Grammar.ItemValue(item, false) == [c]
    ensures |EscapedByte(c)| <= |Grammar.ItemText(item)|
    ensures |EscapedByte(c)| == |Grammar.ItemText(item)| < 6 ==> EscapedByte(c) == Grammar.ItemText(item)
  {
    hide Grammar.HexOf, Grammar.IsHexDigit, Utf8.GetRange;
  }

  /** The pieces of a written string. With validation, a sequence of several bytes is
      one piece. */
  function ItemsOf(s: Text, validate: bool): seq<Grammar.Item> {
    if s == [] then []
    else
      var n := if validate && s[0] >= 0x80 then Utf8.Taken(s[0]) else 1;
      if n == 1 || n > |s| then [ByteItem(s[0])] + ItemsOf(s[1..], validate)
      else [Grammar.Raw(s[..n])] + ItemsOf(s[n..], validate)
  }

  /** The writer's hexadecimal digits are the upper-case ones. */
  lemma UpperDigit(h: nat)
    requires h < 16
    ensures HexDigit(h) == Grammar.UPPER_HEX[h]
    ensures Grammar.IsHexDigit(HexDigit(h)) && Grammar.HexOf(HexDigit(h)) == h
  {
    hide Grammar.HexOf, Grammar.IsHexDigit;
    Leaves.HexTable(h);
    Leaves.HexDigits(HexDigit(h));
  }

  lemma HexDigits(h: nat, l: nat)
    requires h < 16 && l < 16
    ensures var s := [0x30, 0x30, HexDigit(h), HexDigit(l)];
            Grammar.IsHex4(s) && Grammar.Hex(s) == h * 16 + l
  {
    hide Grammar.HexOf, Grammar.IsHexDigit, HexDigit;
    assert HexDigit(0) == 0x30 by { UpperDigit(0); }
    UpperDigit(0);
    UpperDigit(h);
    UpperDigit(l);
  }

  /** A byte is written as a piece of the grammar that stands for it. */
  lemma ByteWritten(c: Byte, validate: bool)
    requires validate ==> c < 0x80
    ensures Grammar.IsItem(ByteItem(c), validate)
    ensures Grammar.ItemText(ByteItem(c)) == EscapedByte(c) && Grammar.ItemValue(ByteItem(c), validate) == [c]
  {
    var letter := EscapeLetter(c);
    hide Grammar.Hex, Grammar.IsHex4, HexDigit;
    if letter == LOWER_U { HexDigits(c / 16, c % 16); }
  }

  lemma {:induction false} EscapedConcat(a: Text, b: Text)
    ensures Escaped(a + b) == Escaped(a) + Escaped(b)
    decreases |b|
  {
    hide EscapedByte;
    if b == [] {
      assert a + b == a;
    } else {
      var c, last := b[..|b| - 1], b[|b| - 1];
      assert (a + b)[..|a + b| - 1] == a + c;
      EscapedConcat(a, c);
      Join([], Escaped(a), Escaped(c), EscapedByte(last));
    }
  }

  /** Bytes outside ASCII are written as they are. */
  lemma {:induction false} HighBytes(s: Text)
    requires forall i :: 0 <= i < |s| ==> s[i] >= 0x80
    ensures Escaped(s) == s
    decreases |s|
  {
    hide EscapedByte;
    if s != [] {
      HighBytes(s[..|s| - 1]);
      HighByte(s[|s| - 1]);
      assert s == s[..|s| - 1] + [s[|s| - 1]];
    }
  }

  lemma HighByte(c: Byte)
    requires c >= 0x80
    ensures EscapedByte(c) == [c]
  {
  }

  lemma OneEscaped(c: Byte)
    ensures Escaped([c]) == EscapedByte(c)
  {
    assert [c][..0] == [];
    assert [] + EscapedByte(c) == EscapedByte(c);
  }

  lemma ItemsCons(item: Grammar.Item, rest: seq<Grammar.Item>, validate: bool)
    requires Grammar.IsItem(item, validate) && Grammar.AreItems(rest, validate)
    ensures var items := [item] + rest;
            && Grammar.AreItems(items, validate)
            && Grammar.ItemsText(items) == Grammar.ItemText(item) + Grammar.ItemsText(rest)
            && Grammar.ItemsValue(items, validate)
               == Grammar.ItemValue(item, validate) + Grammar.ItemsValue(rest, validate)
  {
    hide Grammar.IsItem, Grammar.ItemText, Grammar.ItemValue;
    assert ([item] + rest)[1..] == rest;
  }

  /** A written string is a string of the grammar that stands for the original. */
  lemma {:induction false} StringWritten(s: Text, validate: bool)
    requires validate ==> Utf8.IsUtf8Octets(s)
    ensures var items := ItemsOf(s, validate);
            && Grammar.AreItems(items, validate)
            && Grammar.ItemsText(items) == Escaped(s) && Grammar.ItemsValue(items, validate) == s
    decreases |s|
  {
    hide Escaped, Grammar.ItemsText, Grammar.ItemsValue, Grammar.AreItems, Grammar.IsItem, ByteItem, EscapedByte,
      Grammar.ItemValue, Grammar.ItemText, Utf8.IsUtf8Char, Utf8.Taken;
    if s == [] {
      NoItems(validate);
    } else {
      var n := 1;
      if validate { n := CharPrefix(s); }
      var rest := ItemsOf(s[n..], validate);
      StringWritten(s[n..], validate);
      assert s == s[..n] + s[n..];
      EscapedConcat(s[..n], s[n..]);
      if n == 1 {
        assert s[..1] == [s[0]];
        ByteWritten(s[0], validate);
        OneEscaped(s[0]);
        ItemsCons(ByteItem(s[0]), rest, validate);
      } else {
        CharWritten(s[..n]);
        ItemsCons(Grammar.Raw(s[..n]), rest, validate);
      }
    }
  }

  lemma NoItems(validate: bool)
    ensures Grammar.AreItems([], validate) && Grammar.ItemsText([]) == Escaped([]) == []
    ensures Grammar.ItemsValue([], validate) == []
  {
  }

  /** The first character of a UTF-8 string. */
  lemma CharPrefix(s: Text) returns (n: nat)
    requires s != [] && Utf8.IsUtf8Octets(s)
    ensures 1 <= n <= |s| && Utf8.IsUtf8Char(s[..n]) && Utf8.IsUtf8Octets(s[n..])
    ensures n == (if s[0] >= 0x80 then Utf8.Taken(s[0]) else 1)
    ensures n == 1 ==> s[0] < 0x80
  {
    n :| 1 <= n <= |s| && Utf8.IsUtf8Char(s[..n]) && Utf8.IsUtf8Octets(s[n..]);
    Utf8.CharLength(s[..n]);
    assert s[..n][0] == s[0];
  }

  lemma CharWritten(s: Text)
    requires Utf8.IsUtf8Char(s) && |s| > 1
    ensures Escaped(s) == s && Grammar.IsItem(Grammar.Raw(s), true)
    ensures Grammar.ItemText(Grammar.Raw(s)) == s && Grammar.ItemValue(Grammar.Raw(s), true) == s
  {
    assert forall i :: 0 <= i < |s| ==> s[i] >= 0x80;
    assert Escaped(s) == s by {
      hide *;
      HighBytes(s);
    }
  }

  // The concrete syntax tree of a printed value

  function NumeralOf(i: int): Grammar.Numeral {
    Grammar.Numeral(i < 0, DigitsOf(if i < 0 then -i else i), None, None)
  }

  function EventInteger(event: Event): int {
    match event
    case Int(i) => i
    case Uint(i) => i
    case Int64(i) => i
    case Uint64(i) => i
    case _ => 0
  }

  /** The layout that is promised: a line feed, and the indentation for each of the
      `depth` levels. */
  function Line(f: Style, depth: nat): Text {
    [0x0A] + Repeat(f.indentChar, depth * f.indentCharCount)
  }

  /** White space in front of the first child, `depth` levels deep. */
  function FirstGap(f: Style, isArray: bool, depth: nat): Text {
    if isArray && f.singleLineArray then [] else Line(f, depth)
  }

  /** White space behind a comma. */
  function NextGap(f: Style, isArray: bool, depth: nat): Text {
    if isArray && f.singleLineArray then [0x20] else Line(f, depth)
  }

  /** A number as doubles are written: with a fraction or an exponent, or NaN or infinite. */
  ghost predicate IsDouble(m: Grammar.Numeral) {
    Grammar.IsNumeral(m) && (m.fraction.Some? || m.power.Some? || !Grammar.IsWhole(m.whole))
  }

  ghost predicate IsDoubleText(d: Text) {
    exists m :: IsDouble(m) && Grammar.NumeralText(m) == d
  }

  ghost function DoubleNumeral(d: Text): (m: Grammar.Numeral)
    requires IsDoubleText(d)
    ensures IsDouble(m) && Grammar.NumeralText(m) == d
  {
    var m :| IsDouble(m) && Grammar.NumeralText(m) == d;
    m
  }

  ghost function NumberSyntax(n: Number): Grammar.Numeral {
    if n.data.Real? && IsDoubleText(n.data.literal) then DoubleNumeral(n.data.literal)
    else NumeralOf(EventInteger(NumberEvent(n)))
  }

  ghost function Syntax(f: Style, validate: bool, v: Value, depth: nat): Grammar.Tree
    decreases v, 0
  {
    match v
    case NullValue => Grammar.NullTree
    case BoolValue(b) => Grammar.BoolTree(b)
    case StringValue(s) => Grammar.StringTree(ItemsOf(s, validate))
    case NumberValue(n) => Grammar.NumberTree(NumberSyntax(n))
    case ArrayValue(x) =>
      Grammar.ArrayTree(if x == [] then [] else FirstGap(f, true, depth + 1), ElementsSyntax(f, validate, x, depth + 1))
    case ObjectValue(x) =>
      Grammar.ObjectTree(if x == [] then [] else FirstGap(f, false, depth + 1),
                         MembersSyntax(f, validate, x, depth + 1))
  }

  ghost function ElementsSyntax(f: Style, validate: bool, x: seq<Value>, depth: nat): (elements: Grammar.Elements)
    requires depth > 0
    ensures !elements.TrailingElements?
    decreases x, 1
  {
    if x == [] then Grammar.NoElements
    else
      var last := |x| == 1;
      Grammar.Elements(Syntax(f, validate, x[0], depth),
                       if last then FirstGap(f, true, depth - 1) else [],
                       if last then [] else NextGap(f, true, depth),
                       ElementsSyntax(f, validate, x[1..], depth))
  }

  ghost function MembersSyntax(f: Style, validate: bool, x: seq<Member>, depth: nat): (members: Grammar.Members)
    requires depth > 0
    ensures !members.TrailingMembers?
    decreases x, 1
  {
    if x == [] then Grammar.NoMembers
    else
      var last := |x| == 1;
      Grammar.Members(ItemsOf(x[0].name, validate), [], [0x20],
                      Syntax(f, validate, x[0].value, depth),
                      if last then FirstGap(f, false, depth - 1) else [],
                      if last then [] else NextGap(f, false, depth),
                      MembersSyntax(f, validate, x[1..], depth))
  }

  /** Can the value be printed and read back? Made by the constructors, the literals of
      doubles as they are written, and UTF-8 strings when the reader validates. */
  ghost predicate Printable(v: Value, validate: bool)
    decreases v
  {
    match v
    case StringValue(s) => validate ==> Utf8.IsUtf8Octets(s)
    case NumberValue(n) => PrintableNumber(n)
    case ArrayValue(x) => forall i :: 0 <= i < |x| ==> Printable(x[i], validate)
    case ObjectValue(x) =>
      forall i :: 0 <= i < |x| ==> Printable(x[i].value, validate) && (validate ==> Utf8.IsUtf8Octets(x[i].name))
    case _ => true
  }

  ghost predicate PrintableNumber(n: Number) {
    Made(n) && n != NUMBER_ANY && (n.data.Real? ==> IsDoubleText(n.data.literal))
  }

  /** Are all doubles in range for this reader, and NaN and infinity allowed if there are
      any? */
  ghost predicate Readable(e: Lexer.Env, v: Value)
    decreases v
  {
    match v
    case NumberValue(n) =>
      n.data.Real? && IsDoubleText(n.data.literal) ==> Grammar.InRange(e, DoubleNumeral(n.data.literal))
    case ArrayValue(x) => forall i :: 0 <= i < |x| ==> Readable(e, x[i])
    case ObjectValue(x) => forall i :: 0 <= i < |x| ==> Readable(e, x[i].value)
    case _ => true
  }

  ghost predicate MembersPrintable(x: seq<Member>, validate: bool) {
    forall i :: 0 <= i < |x| ==> Printable(x[i].value, validate) && (validate ==> Utf8.IsUtf8Octets(x[i].name))
  }

  ghost predicate ElementsPrintable(x: seq<Value>, validate: bool) {
    forall i :: 0 <= i < |x| ==> Printable(x[i], validate)
  }

  lemma HeadPrintable(x: seq<Value>, validate: bool)
    requires ElementsPrintable(x, validate) && x != []
    ensures Printable(x[0], validate) && ElementsPrintable(x[1..], validate)
  {
  }

  lemma FirstPrintable(x: seq<Member>, validate: bool)
    requires MembersPrintable(x, validate) && x != []
    ensures Printable(x[0].value, validate) && (validate ==> Utf8.IsUtf8Octets(x[0].name))
    ensures MembersPrintable(x[1..], validate)
  {
  }

  // Printing follows the syntax tree

  lemma WrittenSnoc(f: Style, w: Output, events: seq<Event>, event: Event)
    ensures WrittenAll(f, w, events + [event]) ==
            match WrittenAll(f, w, events) case None => None case Some(v) => Written(f, v, event)
  {
    assert (events + [event])[..|events|] == events;
  }

  lemma {:induction false} WrittenConcat(f: Style, w: Output, a: seq<Event>, b: seq<Event>)
    ensures WrittenAll(f, w, a + b) == match WrittenAll(f, w, a) case None => None case Some(v) => WrittenAll(f, v, b)
    decreases |b|
  {
    hide Written;
    if b == [] {
      assert a + b == a;
    } else {
      var c, last := b[..|b| - 1], b[|b| - 1];
      assert a + b == (a + c) + [last];
      WrittenConcat(f, w, a, c);
      WrittenSnoc(f, w, a + c, last);
    }
  }

  lemma {:induction false} AllFront(x: seq<Value>)
    requires x != []
    ensures AcceptAll(x) == Accept(x[0]) + AcceptAll(x[1..])
    decreases |x|
  {
    hide Accept;
    if |x| == 1 {
      assert x[..0] == [] && x[1..] == [];
    } else {
      var y := x[..|x| - 1];
      AllFront(y);
      assert y[1..] == x[1..][..|x| - 2];
      assert AcceptAll(x[1..]) == AcceptAll(y[1..]) + Accept(x[|x| - 1]);
      Regroup3(Accept(x[0]), AcceptAll(y[1..]), Accept(x[|x| - 1]));
    }
  }

  lemma {:induction false} MembersFront(x: seq<Member>)
    requires x != []
    ensures AcceptMembers(x) == [Key(x[0].name)] + (Accept(x[0].value) + AcceptMembers(x[1..]))
    decreases |x|
  {
    hide Accept;
    if |x| == 1 {
      assert x[..0] == [] && x[1..] == [];
      assert AcceptMembers(x) == [] + ([Key(x[0].name)] + Accept(x[0].value));
    } else {
      var y, last := x[..|x| - 1], x[|x| - 1];
      MembersFront(y);
      assert y[1..] == x[1..][..|x| - 2];
      assert AcceptMembers(x[1..]) == AcceptMembers(y[1..]) + ([Key(last.name)] + Accept(last.value));
      assert AcceptMembers(x) == AcceptMembers(y) + ([Key(last.name)] + Accept(last.value));
    }
  }

  /** Would a value be in its place here? */
  predicate Awaits(w: Output) {
    if w.levels == [] then !w.hasRoot
    else var top := w.levels[|w.levels| - 1]; top.inArray || top.valueCount % 2 == 1
  }

  function LeadHere(f: Style, w: Output): Text {
    if w.levels == [] then [] else Lead(f, w.levels[|w.levels| - 1], |w.levels|)
  }

  /** The writer after a value with this text has been written. */
  function Appended(f: Style, w: Output, t: Text): Output {
    Output(w.text + (LeadHere(f, w) + t), Bumped(w.levels), true)
  }

  /** A writer that has begun: within a container, or at the root. */
  predicate Begun(w: Output) {
    w.hasRoot || w.levels == []
  }

  lemma LeafPrinted(f: Style, w: Output, event: Event)
    requires Awaits(w) && Begun(w) && IsScalar(event)
    ensures Written(f, w, event) == Some(Appended(f, w, LeafText(event)))
  {
    hide LeafText, Lead;
    assert w.text + [] == w.text && [] + LeafText(event) == LeafText(event);
    if w.levels != [] {
      var lead := LeadHere(f, w);
      assert w.text + lead + LeafText(event) == w.text + (lead + LeafText(event));
    }
  }

  /** A raw number is written as the string that a document makes of it. */
  lemma RawNumberWritten(f: Style, w: Output, stack: seq<Value>, s: Text)
    requires Awaits(w)
    ensures Written(f, w, RawNumber(s)) == Written(f, w, String(s))
    ensures Handled(stack, RawNumber(s)) == Handled(stack, String(s))
  {
  }

  lemma IntegerWritten(i: int)
    ensures Grammar.IsNumeral(NumeralOf(i)) && Grammar.IsWhole(NumeralOf(i).whole)
    ensures Grammar.NumeralText(NumeralOf(i)) == IntegerText(i)
  {
    var n := NumeralOf(i);
    Numerals.DigitsAre(n.whole);
    assert Grammar.FractionText(n) + Grammar.PowerText(n) == [];
    assert n.whole + [] == n.whole && [] + n.whole == n.whole;
  }

  lemma StringText(s: Text, validate: bool)
    requires validate ==> Utf8.IsUtf8Octets(s)
    ensures Grammar.QuotedText(ItemsOf(s, validate)) == QuotedString(s)
  {
    StringWritten(s, validate);
  }

  predicate IsLeafValue(v: Value) {
    !v.ArrayValue? && !v.ObjectValue?
  }

  lemma LeafSyntax(f: Style, validate: bool, v: Value, depth: nat)
    requires IsLeafValue(v) && Printable(v, validate)
    ensures Accept(v) == [Accept(v)[0]] && IsScalar(Accept(v)[0])
    ensures Grammar.TreeText(Syntax(f, validate, v, depth)) == LeafText(Accept(v)[0])
  {
    hide Grammar.NumeralText, Grammar.QuotedText, QuotedString, IntegerText, ItemsOf, NumberSyntax, PrintableNumber,
      Utf8.IsUtf8Octets;
    match v
    case StringValue(s) => StringText(s, validate);
    case NumberValue(n) => NumberText(n);
    case _ =>
  }

  lemma NumberText(n: Number)
    requires PrintableNumber(n)
    ensures var event := NumberEvent(n);
            IsScalar(event) && LeafText(event) == Grammar.NumeralText(NumberSyntax(n))
  {
    hide Grammar.NumeralText, IntegerText, NumeralOf, IsDouble, IsDoubleText;
    if n.data.Bits? { IntegerWritten(EventInteger(NumberEvent(n))); }
  }

  lemma OneWritten(f: Style, w: Output, event: Event)
    ensures WrittenAll(f, w, [event]) == Written(f, w, event)
  {
    WrittenSnoc(f, w, [], event);
    assert [] + [event] == [event];
  }

  /** Writing a value puts the text of its syntax tree. */
  lemma {:induction false} ValuePrinted(f: Style, validate: bool, w: Output, v: Value)
    requires Awaits(w) && Begun(w) && Printable(v, validate)
    ensures WrittenAll(f, w, Accept(v)) == Some(Appended(f, w, Grammar.TreeText(Syntax(f, validate, v, |w.levels|))))
    decreases v, 1
  {
    hide Written, Awaits, Accept, Appended, Grammar.TreeText, Syntax;
    match v
    case ArrayValue(x) => ArrayPrinted(f, validate, w, v, x);
    case ObjectValue(x) => ObjectPrinted(f, validate, w, v, x);
    case _ =>
      LeafSyntax(f, validate, v, |w.levels|);
      LeafPrinted(f, w, Accept(v)[0]);
      OneWritten(f, w, Accept(v)[0]);
  }

  /** The writer inside a new container. */
  function Inside(f: Style, w: Output, inArray: bool): Output {
    Output(w.text + (LeadHere(f, w) + [if inArray then Lexer.LBRACKET else Lexer.LBRACE]),
           Bumped(w.levels) + [Level(inArray, 0)], true)
  }

  lemma OpenPrinted(f: Style, w: Output, inArray: bool)
    requires Awaits(w) && Begun(w)
    ensures WrittenAll(f, w, [if inArray then StartArray else StartObject]) == Some(Inside(f, w, inArray))
  {
    OneWritten(f, w, if inArray then StartArray else StartObject);
    var b := [if inArray then Lexer.LBRACKET else Lexer.LBRACE];
    assert [] + b == b;
    if w.levels != [] {
      assert w.text + LeadHere(f, w) + b == w.text + (LeadHere(f, w) + b);
    }
  }

  /** Closing a container in which `count` values have been written. */
  lemma ClosePrinted(f: Style, w: Output, v: Output, inArray: bool, count: nat, t: Text)
    requires v.levels == Bumped(w.levels) + [Level(inArray, count)] && v.hasRoot
    requires v.text + Trail(f, Level(inArray, count), |w.levels|) == Inside(f, w, inArray).text + t
    ensures var bracket := [if inArray then Lexer.LBRACKET else Lexer.LBRACE];
            var end := [if inArray then Lexer.RBRACKET else Lexer.RBRACE];
            Closed(f, v, inArray) == Some(Appended(f, w, bracket + (t + end)))
  {
    hide Trail, LeadHere, Lead;
    var k := |w.levels|;
    assert v.levels[..k] == Bumped(w.levels) && v.levels[k] == Level(inArray, count);
    var bracket := [if inArray then Lexer.LBRACKET else Lexer.LBRACE];
    var end := [if inArray then Lexer.RBRACKET else Lexer.RBRACE];
    var lead := LeadHere(f, w);
    assert w.text + (lead + bracket) + t + end == w.text + (lead + (bracket + (t + end)));
  }

  lemma {:induction false} ArrayPrinted(f: Style, validate: bool, w: Output, v: Value, x: seq<Value>)
    requires Awaits(w) && Begun(w) && Printable(v, validate) && v == ArrayValue(x)
    ensures WrittenAll(f, w, Accept(v)) == Some(Appended(f, w, Grammar.TreeText(Syntax(f, validate, v, |w.levels|))))
    decreases v, 0
  {
    hide Written, Awaits, Begun, Appended, Inside, Syntax, ElementsSyntax, Lead, Accept, AcceptAll, Grammar.TreeText,
      Grammar.ElementsText, FirstGap, Trail, Closed;
    var inside, d := Inside(f, w, true), |w.levels| + 1;
    OpenPrinted(f, w, true);
    InsideIs(f, w, true);
    EventsOf(v);
    WrittenConcat(f, w, [StartArray] + AcceptAll(x), [EndArray(|x|)]);
    WrittenConcat(f, w, [StartArray], AcceptAll(x));
    var t := Grammar.ElementsText(ElementsSyntax(f, validate, x, d));
    var gap := if x == [] then [] else FirstGap(f, true, d);
    if x == [] {
      NothingWritten(f, validate, inside, d);
      ClosePrinted(f, w, inside, true, 0, gap + t);
      OneWritten(f, inside, EndArray(|x|));
      EndIs(f, inside, true, |x|);
    } else {
      ElementsPrinted(f, validate, inside, x, 0);
      var r := WrittenAll(f, inside, AcceptAll(x)).value;
      Gaps(f, true, |x|, d);
      ClosePrinted(f, w, r, true, |x|, gap + t);
      OneWritten(f, r, EndArray(|x|));
      EndIs(f, r, true, |x|);
    }
    ArrayText(f, validate, x, |w.levels|);
  }

  lemma InsideIs(f: Style, w: Output, inArray: bool)
    ensures var i := Inside(f, w, inArray);
            i.levels == Bumped(w.levels) + [Level(inArray, 0)] && i.hasRoot && Begun(i)
  {
  }

  lemma EventsOf(v: Value)
    ensures v.ArrayValue? ==> Accept(v) == [StartArray] + AcceptAll(v.elements) + [EndArray(|v.elements|)]
    ensures v.ObjectValue? ==> Accept(v) == [StartObject] + AcceptMembers(v.members) + [EndObject(|v.members|)]
    ensures AcceptAll([]) == [] && AcceptMembers([]) == []
  {
  }

  lemma NothingWritten(f: Style, validate: bool, w: Output, d: nat)
    requires d > 0
    ensures WrittenAll(f, w, []) == Some(w)
    ensures Grammar.ElementsText(ElementsSyntax(f, validate, [], d)) == []
    ensures Grammar.MembersText(MembersSyntax(f, validate, [], d)) == []
    ensures forall inArray :: Trail(f, Level(inArray, 0), d - 1) == []
    ensures w.text + [] == w.text
  {
  }

  lemma EndIs(f: Style, w: Output, inArray: bool, n: nat)
    ensures Written(f, w, if inArray then EndArray(n) else EndObject(n)) == Closed(f, w, inArray)
  {
  }

  /** The white space that the writer puts is that of the syntax tree. */
  lemma Gaps(f: Style, inArray: bool, n: nat, d: nat)
    requires d > 0 && n > 0
    ensures Lead(f, Level(inArray, 0), d) == FirstGap(f, inArray, d)
    ensures Trail(f, Level(inArray, n), d - 1) == FirstGap(f, inArray, d - 1)
    ensures inArray || n % 2 == 0 ==> Lead(f, Level(inArray, n), d) == [Lexer.COMMA] + NextGap(f, inArray, d)
    ensures !inArray && n % 2 == 1 ==> Lead(f, Level(inArray, n), d) == [Lexer.COLON] + [0x20]
  {
    var nl := NewLine(f, d);
    assert [] + nl == nl;
    assert [Lexer.COMMA] + [0x20] + [] == [Lexer.COMMA] + [0x20];
    assert [Lexer.COMMA] + [] + nl == [Lexer.COMMA] + nl;
  }

  lemma ArrayText(f: Style, validate: bool, x: seq<Value>, depth: nat)
    ensures var t := Grammar.ElementsText(ElementsSyntax(f, validate, x, depth + 1));
            var gap := if x == [] then [] else FirstGap(f, true, depth + 1);
            Grammar.TreeText(Syntax(f, validate, ArrayValue(x), depth))
            == [Lexer.LBRACKET] + ((gap + t) + [Lexer.RBRACKET])
  {
    hide ElementsSyntax, Grammar.ElementsText, FirstGap;
    var t := Grammar.ElementsText(ElementsSyntax(f, validate, x, depth + 1));
    var gap := if x == [] then [] else FirstGap(f, true, depth + 1);
    assert gap + (t + [Lexer.RBRACKET]) == (gap + t) + [Lexer.RBRACKET];
  }

  lemma ObjectText(f: Style, validate: bool, x: seq<Member>, depth: nat)
    ensures var t := Grammar.MembersText(MembersSyntax(f, validate, x, depth + 1));
            var gap := if x == [] then [] else FirstGap(f, false, depth + 1);
            Grammar.TreeText(Syntax(f, validate, ObjectValue(x), depth))
            == [Lexer.LBRACE] + ((gap + t) + [Lexer.RBRACE])
  {
    hide MembersSyntax, Grammar.MembersText, FirstGap;
    var t := Grammar.MembersText(MembersSyntax(f, validate, x, depth + 1));
    var gap := if x == [] then [] else FirstGap(f, false, depth + 1);
    assert gap + (t + [Lexer.RBRACE]) == (gap + t) + [Lexer.RBRACE];
  }

  /** A writer inside a container that holds `n` values so far. */
  predicate Within(w: Output, inArray: bool, n: nat) {
    w.hasRoot && w.levels != [] && w.levels[|w.levels| - 1] == Level(inArray, n)
  }

  function Recounted(levels: seq<Level>, n: nat): seq<Level>
    requires levels != []
  {
    levels[|levels| - 1 := Level(levels[|levels| - 1].inArray, n)]
  }

  /** The writer behind the first element of a list. */
  ghost function ElementWritten(f: Style, validate: bool, w: Output, v: Value, n: nat): Output
    requires w.levels != []
  {
    var d := |w.levels|;
    Output(w.text + (Lead(f, Level(true, n), d) + Grammar.TreeText(Syntax(f, validate, v, d))),
           Recounted(w.levels, n + 1), true)
  }

  lemma {:induction false} ElementPrinted(f: Style, validate: bool, w: Output, v: Value, n: nat, rest: seq<Event>)
    requires Within(w, true, n) && Printable(v, validate)
    ensures WrittenAll(f, w, Accept(v) + rest) == WrittenAll(f, ElementWritten(f, validate, w, v, n), rest)
    ensures Within(ElementWritten(f, validate, w, v, n), true, n + 1)
    decreases v, 2
  {
    hide WrittenAll, Written, Lead, Accept, Grammar.TreeText, Syntax, Printable, Appended, Awaits, Begun;
    AppendedWithin(f, w, true, n, Grammar.TreeText(Syntax(f, validate, v, |w.levels|)));
    ValuePrinted(f, validate, w, v);
    WrittenConcat(f, w, Accept(v), rest);
  }

  lemma {:induction false} ElementsPrinted(f: Style, validate: bool, w: Output, x: seq<Value>, n: nat)
    requires x != [] && Within(w, true, n) && ElementsPrintable(x, validate)
    ensures var r := WrittenAll(f, w, AcceptAll(x));
            var d := |w.levels|;
            && r.Some? && r.value.hasRoot && r.value.levels == Recounted(w.levels, n + |x|)
            && r.value.text + FirstGap(f, true, d - 1)
               == w.text + (Lead(f, Level(true, n), d) + Grammar.ElementsText(ElementsSyntax(f, validate, x, d)))
    decreases x
  {
    hide WrittenAll, Written, Lead, Accept, Grammar.TreeText, Syntax, FirstGap, NextGap, AcceptAll, ElementsSyntax,
      Grammar.ElementsText, Printable, ElementsPrintable;
    AllFront(x);
    HeadPrintable(x, validate);
    ElementPrinted(f, validate, w, x[0], n, AcceptAll(x[1..]));
    var w1 := ElementWritten(f, validate, w, x[0], n);
    if |x| == 1 {
      LastElement(f, validate, w, x, n);
    } else {
      ElementsPrinted(f, validate, w1, x[1..], n + 1);
      MoreElements(f, validate, w, x, n, WrittenAll(f, w1, AcceptAll(x[1..])).value.text);
    }
  }

  lemma LastElement(f: Style, validate: bool, w: Output, x: seq<Value>, n: nat)
    requires |x| == 1 && Within(w, true, n)
    ensures var w1, d := ElementWritten(f, validate, w, x[0], n), |w.levels|;
            && WrittenAll(f, w1, AcceptAll(x[1..])) == Some(w1)
            && w1.text + FirstGap(f, true, d - 1)
               == w.text + (Lead(f, Level(true, n), d) + Grammar.ElementsText(ElementsSyntax(f, validate, x, d)))
  {
    hide WrittenAll, Lead, Grammar.TreeText, Syntax, FirstGap, AcceptAll, ElementsSyntax, Grammar.ElementsText;
    var d := |w.levels|;
    assert x[1..] == [];
    NothingWritten(f, validate, ElementWritten(f, validate, w, x[0], n), d);
    EventsOf(x[0]);
    ElementsStep(f, validate, x, d);
    Join(w.text, Lead(f, Level(true, n), d), Grammar.TreeText(Syntax(f, validate, x[0], d)), FirstGap(f, true, d - 1));
  }

  lemma MoreElements(f: Style, validate: bool, w: Output, x: seq<Value>, n: nat, text: Text)
    requires |x| > 1 && Within(w, true, n)
    requires var d := |w.levels|;
             text + FirstGap(f, true, d - 1)
             == ElementWritten(f, validate, w, x[0], n).text
                + (Lead(f, Level(true, n + 1), d) + Grammar.ElementsText(ElementsSyntax(f, validate, x[1..], d)))
    ensures var d := |w.levels|;
            text + FirstGap(f, true, d - 1)
            == w.text + (Lead(f, Level(true, n), d) + Grammar.ElementsText(ElementsSyntax(f, validate, x, d)))
  {
    hide Lead, Grammar.TreeText, Syntax, FirstGap, NextGap, ElementsSyntax, Grammar.ElementsText;
    var d := |w.levels|;
    ElementsStep(f, validate, x, d);
    Gaps(f, true, n + 1, d);
    var rest := Lead(f, Level(true, n + 1), d) + Grammar.ElementsText(ElementsSyntax(f, validate, x[1..], d));
    Join(w.text, Lead(f, Level(true, n), d), Grammar.TreeText(Syntax(f, validate, x[0], d)), rest);
  }

  lemma AppendedWithin(f: Style, w: Output, inArray: bool, n: nat, t: Text)
    requires Within(w, inArray, n)
    ensures Appended(f, w, t) ==
            Output(w.text + (Lead(f, Level(inArray, n), |w.levels|) + t), Recounted(w.levels, n + 1), true)
    ensures Within(Appended(f, w, t), inArray, n + 1) && Begun(w)
    ensures inArray || n % 2 == 1 ==> Awaits(w)
  {
    hide Lead;
  }

  lemma Join(a: Text, b: Text, c: Text, d: Text)
    ensures a + (b + c) + d == a + (b + (c + d))
  {
  }

  /** The text of a list of elements, by its first element. */
  lemma ElementsStep(f: Style, validate: bool, x: seq<Value>, d: nat)
    requires x != [] && d > 0
    ensures var t := Grammar.TreeText(Syntax(f, validate, x[0], d));
            var rest := Grammar.ElementsText(ElementsSyntax(f, validate, x[1..], d));
            Grammar.ElementsText(ElementsSyntax(f, validate, x, d)) ==
            if |x| == 1 then t + FirstGap(f, true, d - 1)
            else t + ([Lexer.COMMA] + NextGap(f, true, d) + rest)
  {
    hide Grammar.TreeText, Syntax, FirstGap, NextGap;
    var t := Grammar.TreeText(Syntax(f, validate, x[0], d));
    if |x| == 1 {
      assert x[1..] == [];
      assert FirstGap(f, true, d - 1) + [] == FirstGap(f, true, d - 1);
    } else {
      var rest := Grammar.ElementsText(ElementsSyntax(f, validate, x[1..], d));
      var c := [Lexer.COMMA] + (NextGap(f, true, d) + rest);
      assert [] + c == c;
      assert c == [Lexer.COMMA] + NextGap(f, true, d) + rest;
    }
  }

  lemma {:induction false} ObjectPrinted(f: Style, validate: bool, w: Output, v: Value, x: seq<Member>)
    requires Awaits(w) && Begun(w) && Printable(v, validate) && v == ObjectValue(x)
    ensures WrittenAll(f, w, Accept(v)) == Some(Appended(f, w, Grammar.TreeText(Syntax(f, validate, v, |w.levels|))))
    decreases v, 0
  {
    hide Written, Awaits, Begun, Appended, Inside, Syntax, MembersSyntax, Lead, Accept, AcceptMembers, Grammar.TreeText,
      Grammar.MembersText, FirstGap, Trail, Closed;
    var inside, d := Inside(f, w, false), |w.levels| + 1;
    OpenPrinted(f, w, false);
    InsideIs(f, w, false);
    EventsOf(v);
    WrittenConcat(f, w, [StartObject] + AcceptMembers(x), [EndObject(|x|)]);
    WrittenConcat(f, w, [StartObject], AcceptMembers(x));
    var t := Grammar.MembersText(MembersSyntax(f, validate, x, d));
    var gap := if x == [] then [] else FirstGap(f, false, d);
    if x == [] {
      NothingWritten(f, validate, inside, d);
      ClosePrinted(f, w, inside, false, 0, gap + t);
      OneWritten(f, inside, EndObject(|x|));
      EndIs(f, inside, false, |x|);
    } else {
      MembersPrinted(f, validate, inside, x, 0);
      var r := WrittenAll(f, inside, AcceptMembers(x)).value;
      assert 2 * (0 + |x|) == 2 * |x|;
      Gaps(f, false, 2 * |x|, d);
      ClosePrinted(f, w, r, false, 2 * |x|, gap + t);
      OneWritten(f, r, EndObject(|x|));
      EndIs(f, r, false, |x|);
    }
    ObjectText(f, validate, x, |w.levels|);
  }

  lemma KeyPrinted(f: Style, validate: bool, w: Output, name: Text, n: nat)
    requires Within(w, false, 2 * n) && (validate ==> Utf8.IsUtf8Octets(name))
    ensures Written(f, w, Key(name)) ==
            Some(Output(w.text + (Lead(f, Level(false, 2 * n), |w.levels|)
                                  + Grammar.QuotedText(ItemsOf(name, validate))),
                        Recounted(w.levels, 2 * n + 1), true))
  {
    hide Lead, QuotedString, Grammar.QuotedText, ItemsOf, Closed, Opened, Utf8.IsUtf8Octets;
    StringText(name, validate);
    var lead := Lead(f, Level(false, 2 * n), |w.levels|);
    assert w.text + lead + QuotedString(name) == w.text + (lead + QuotedString(name));
  }

  /** The writer behind the first member of a list. */
  ghost function MemberWritten(f: Style, validate: bool, w: Output, m: Member, n: nat): Output
    requires w.levels != []
  {
    var d := |w.levels|;
    var key := Grammar.QuotedText(ItemsOf(m.name, validate));
    var t := Grammar.TreeText(Syntax(f, validate, m.value, d));
    Output(w.text + (Lead(f, Level(false, 2 * n), d) + key) + ([Lexer.COLON] + [0x20] + t),
           Recounted(w.levels, 2 * (n + 1)), true)
  }

  lemma {:induction false} MemberPrinted(f: Style, validate: bool, w: Output, m: Member, n: nat, rest: seq<Event>)
    requires Within(w, false, 2 * n) && Printable(m.value, validate) && (validate ==> Utf8.IsUtf8Octets(m.name))
    ensures WrittenAll(f, w, [Key(m.name)] + (Accept(m.value) + rest))
            == WrittenAll(f, MemberWritten(f, validate, w, m, n), rest)
    ensures Within(MemberWritten(f, validate, w, m, n), false, 2 * (n + 1))
    decreases m.value, 2
  {
    hide WrittenAll, Written, Lead, Accept, Grammar.TreeText, Syntax, Printable, Grammar.QuotedText, ItemsOf,
      Utf8.IsUtf8Octets, Appended, Awaits, Begun;
    var d := |w.levels|;
    var key := Grammar.QuotedText(ItemsOf(m.name, validate));
    var t := Grammar.TreeText(Syntax(f, validate, m.value, d));
    var w1 := Output(w.text + (Lead(f, Level(false, 2 * n), d) + key), Recounted(w.levels, 2 * n + 1), true);
    KeyPrinted(f, validate, w, m.name, n);
    OneWritten(f, w, Key(m.name));
    Gaps(f, false, 2 * n + 1, d);
    AppendedWithin(f, w1, false, 2 * n + 1, t);
    ValuePrinted(f, validate, w1, m.value);
    WrittenConcat(f, w1, Accept(m.value), rest);
    WrittenConcat(f, w, [Key(m.name)], Accept(m.value) + rest);
    assert Appended(f, w1, t) == MemberWritten(f, validate, w, m, n);
  }

  lemma {:induction false} MembersPrinted(f: Style, validate: bool, w: Output, x: seq<Member>, n: nat)
    requires x != [] && Within(w, false, 2 * n) && MembersPrintable(x, validate)
    ensures var r := WrittenAll(f, w, AcceptMembers(x));
            var d := |w.levels|;
            && r.Some? && r.value.hasRoot && r.value.levels == Recounted(w.levels, 2 * (n + |x|))
            && r.value.text + FirstGap(f, false, d - 1)
               == w.text + (Lead(f, Level(false, 2 * n), d) + Grammar.MembersText(MembersSyntax(f, validate, x, d)))
    decreases x
  {
    hide Written, Lead, Accept, Grammar.TreeText, Syntax, FirstGap, NextGap, AcceptMembers, MembersSyntax,
      Grammar.MembersText, Printable, MembersPrintable, Grammar.QuotedText, ItemsOf, Utf8.IsUtf8Octets;
    var d := |w.levels|;
    var key := Grammar.QuotedText(ItemsOf(x[0].name, validate));
    var t := Grammar.TreeText(Syntax(f, validate, x[0].value, d));
    var lead := Lead(f, Level(false, 2 * n), d);
    var colon := [Lexer.COLON] + [0x20];
    MembersFront(x);
    FirstPrintable(x, validate);
    MemberPrinted(f, validate, w, x[0], n, AcceptMembers(x[1..]));
    var w2 := MemberWritten(f, validate, w, x[0], n);
    MembersStep(f, validate, x, d);
    if |x| == 1 {
      assert x[1..] == [];
      NothingWritten(f, validate, w2, d);
      EventsOf(x[0].value);
      Assemble(w.text, lead, key, colon, t, FirstGap(f, false, d - 1));
    } else {
      var k := 2 * (n + 1);
      MembersPrinted(f, validate, w2, x[1..], n + 1);
      Gaps(f, false, k, d);
      var rest := Lead(f, Level(false, k), d) + Grammar.MembersText(MembersSyntax(f, validate, x[1..], d));
      Assemble(w.text, lead, key, colon, t, rest);
    }
  }

  lemma Assemble(a: Text, b: Text, c: Text, d: Text, t: Text, g: Text)
    ensures a + (b + c) + (d + t) + g == a + (b + (c + (d + (t + g))))
  {
    assert a + (b + c) + (d + t) + g == a + ((b + c) + ((d + t) + g));
    assert (b + c) + ((d + t) + g) == b + (c + ((d + t) + g));
    assert (d + t) + g == d + (t + g);
  }

  /** The text of a list of members, by its first member. */
  lemma MembersStep(f: Style, validate: bool, x: seq<Member>, d: nat)
    requires x != [] && d > 0
    ensures var key := Grammar.QuotedText(ItemsOf(x[0].name, validate));
            var t := Grammar.TreeText(Syntax(f, validate, x[0].value, d));
            var rest := Grammar.MembersText(MembersSyntax(f, validate, x[1..], d));
            Grammar.MembersText(MembersSyntax(f, validate, x, d)) ==
            key + ([Lexer.COLON] + [0x20] + (t + (if |x| == 1 then FirstGap(f, false, d - 1)
                                                   else [Lexer.COMMA] + NextGap(f, false, d) + rest)))
  {
    hide Grammar.TreeText, FirstGap, NextGap, Grammar.QuotedText, ItemsOf, MembersSyntax;
    NextSyntax(f, validate, x, d);
    var m := MembersSyntax(f, validate, x, d);
    var z := if |x| == 1 then m.w1 else m.w1 + ([Lexer.COMMA] + (m.w2 + Grammar.MembersText(m.rest)));
    assert m.w1 + [] == m.w1;
    if |x| > 1 {
      assert z == [Lexer.COMMA] + NextGap(f, false, d) + Grammar.MembersText(m.rest);
    }
    var t := Grammar.TreeText(m.v);
    var colon := [Lexer.COLON] + ([0x20] + (t + z));
    assert [] + colon == colon;
    assert colon == [Lexer.COLON] + [0x20] + (t + z);
  }

  lemma NextSyntax(f: Style, validate: bool, x: seq<Member>, d: nat)
    requires d > 0 && x != []
    ensures MembersSyntax(f, validate, x, d) ==
            Grammar.Members(ItemsOf(x[0].name, validate), [], [0x20], Syntax(f, validate, x[0].value, d),
                            if |x| == 1 then FirstGap(f, false, d - 1) else [],
                            if |x| == 1 then [] else NextGap(f, false, d),
                            MembersSyntax(f, validate, x[1..], d))
    ensures MembersSyntax(f, validate, x[1..], d).NoMembers? <==> |x| == 1
  {
    hide FirstGap, NextGap, Syntax, ItemsOf;
  }

  // The syntax tree is one of the grammar, and its events are those of the value

  lemma MadeInteger(n: Number)
    requires Made(n) && !n.isDouble
    ensures NumberEvent(n) == NarrowestEvent(IntegerOf(n)) && EventInteger(NumberEvent(n)) == IntegerOf(n)
  {
    hide Canonical, NumberEvent;
    CanonicalEvent(IntegerOf(n));
  }

  /** The event of an integer literal is, in normal form, the narrowest for its value. */
  lemma NormalInteger(i: int)
    requires -TWO63 <= i < TWO64
    ensures var value := if i < 0 then -i else i;
            Lexer.Fits64(i < 0, value) && Normal(Lexer.IntegerEvent(i < 0, value)) == NarrowestEvent(i)
  {
  }

  lemma IntegerSyntax(e: Lexer.Env, n: Number)
    requires Made(n) && !n.isDouble && !e.flags.numbersAsStrings
    ensures var m := NumeralOf(EventInteger(NumberEvent(n)));
            && Grammar.IsNumeral(m) && Grammar.InRange(e, m)
            && Normal(Grammar.NumeralEvent(e, m)) == NumberEvent(n)
  {
    hide DigitsOf, Made, NumberEvent, NarrowestEvent, Normal, Lexer.IntegerEvent, Lexer.Fits64, Grammar.IsNumeral,
      EventInteger, IntegerOf, Grammar.IsWhole, Grammar.ExactEvent;
    MadeInteger(n);
    NormalInteger(IntegerOf(n));
    IntegerWritten(IntegerOf(n));
    var m := NumeralOf(IntegerOf(n));
    Numerals.ValueIs(m.whole);
    Numerals.IntegerEventIs(m.minus, Lexer.Decimal(m.whole));
  }

  lemma NumberEvents(e: Lexer.Env, n: Number)
    requires PrintableNumber(n) && Readable(e, NumberValue(n)) && !e.flags.numbersAsStrings
    ensures var m := NumberSyntax(n);
            && Grammar.IsNumeral(m) && Grammar.InRange(e, m)
            && Normal(Grammar.NumeralEvent(e, m)) == NumberEvent(n)
  {
    hide NumeralOf, Grammar.IsNumeral, Grammar.InRange, EventInteger, Grammar.IsWhole, IntegerOf;
    if n.data.Bits? {
      IntegerSyntax(e, n);
    }
  }

  lemma GapsBlank(comments: bool, f: Style, inArray: bool, d: nat)
    requires IsStyle(f)
    ensures Grammar.IsBlank(comments, FirstGap(f, inArray, d)) && Grammar.IsBlank(comments, NextGap(f, inArray, d))
    ensures Grammar.IsBlank(comments, []) && Grammar.IsBlank(comments, [0x20])
  {
    Leaves.SpacesBlank(comments, FirstGap(f, inArray, d));
    Leaves.SpacesBlank(comments, NextGap(f, inArray, d));
    Leaves.SpacesBlank(comments, [0x20]);
  }

  lemma LeafEvents(e: Lexer.Env, f: Style, v: Value, d: nat)
    requires IsLeafValue(v) && Printable(v, e.flags.validateEncoding) && Readable(e, v) && !e.flags.numbersAsStrings
    ensures var tree := Syntax(f, e.flags.validateEncoding, v, d);
            Grammar.IsTree(e, tree) && NormalAll(Grammar.Events(e, tree)) == Accept(v)
  {
    hide Normal, NormalAll, ItemsOf, Grammar.AreItems, Grammar.ItemsValue, Grammar.NumeralEvent, Grammar.InRange,
      Grammar.IsNumeral, NumberEvent, NumberSyntax, PrintableNumber;
    match v
    case NullValue => OneNormal(Null);
    case BoolValue(b) => OneNormal(Bool(b));
    case StringValue(s) =>
      StringWritten(s, e.flags.validateEncoding);
      OneNormal(String(s));
    case NumberValue(n) =>
      NumberEvents(e, n);
      OneNormal(Grammar.NumeralEvent(e, NumberSyntax(n)));
  }

  lemma {:induction false} SyntaxEvents(e: Lexer.Env, f: Style, v: Value, d: nat)
    requires IsStyle(f) && Printable(v, e.flags.validateEncoding) && Readable(e, v) && !e.flags.numbersAsStrings
    ensures var tree := Syntax(f, e.flags.validateEncoding, v, d);
            Grammar.IsTree(e, tree) && NormalAll(Grammar.Events(e, tree)) == Accept(v)
    decreases v, 0
  {
    hide Syntax, ElementsSyntax, MembersSyntax, NormalAll, Grammar.Events, Grammar.IsTree, Accept, Made, IsStyle,
      Utf8.IsUtf8Octets;
    match v
    case ArrayValue(x) =>
      ElementsEventsAre(e, f, x, d + 1);
      ArrayEvents(e, f, x, d);
    case ObjectValue(x) =>
      MembersEventsAre(e, f, x, d + 1);
      ObjectEvents(e, f, x, d);
    case _ => LeafEvents(e, f, v, d);
  }

  lemma ArrayEvents(e: Lexer.Env, f: Style, x: seq<Value>, d: nat)
    requires IsStyle(f)
    requires var elements := ElementsSyntax(f, e.flags.validateEncoding, x, d + 1);
             && Grammar.AreElements(e, elements) && Grammar.ElementCount(elements) == |x|
             && NormalAll(Grammar.ElementsEvents(e, elements)) == AcceptAll(x)
    ensures var tree := Syntax(f, e.flags.validateEncoding, ArrayValue(x), d);
            Grammar.IsTree(e, tree) && NormalAll(Grammar.Events(e, tree)) == Accept(ArrayValue(x))
  {
    hide Normal, NormalAll, FirstGap, Grammar.IsBlank, IsStyle, ElementsSyntax, Grammar.AreElements,
      Grammar.ElementsEvents, Grammar.ElementCount, AcceptAll;
    var events := Grammar.ElementsEvents(e, ElementsSyntax(f, e.flags.validateEncoding, x, d + 1));
    GapsBlank(e.flags.comments, f, true, d + 1);
    OneNormal(StartArray);
    OneNormal(EndArray(|x|));
    NormalConcat([StartArray], events);
    NormalConcat([StartArray] + events, [EndArray(|x|)]);
  }

  lemma ObjectEvents(e: Lexer.Env, f: Style, x: seq<Member>, d: nat)
    requires IsStyle(f)
    requires var members := MembersSyntax(f, e.flags.validateEncoding, x, d + 1);
             && Grammar.AreMembers(e, members) && Grammar.MemberCount(members) == |x|
             && NormalAll(Grammar.MembersEvents(e, members)) == AcceptMembers(x)
    ensures var tree := Syntax(f, e.flags.validateEncoding, ObjectValue(x), d);
            Grammar.IsTree(e, tree) && NormalAll(Grammar.Events(e, tree)) == Accept(ObjectValue(x))
  {
    hide Normal, NormalAll, FirstGap, Grammar.IsBlank, IsStyle, MembersSyntax, Grammar.AreMembers,
      Grammar.MembersEvents, Grammar.MemberCount, AcceptMembers;
    var events := Grammar.MembersEvents(e, MembersSyntax(f, e.flags.validateEncoding, x, d + 1));
    GapsBlank(e.flags.comments, f, false, d + 1);
    OneNormal(StartObject);
    OneNormal(EndObject(|x|));
    NormalConcat([StartObject], events);
    NormalConcat([StartObject] + events, [EndObject(|x|)]);
  }

  lemma OneNormal(event: Event)
    ensures NormalAll([event]) == [Normal(event)]
    ensures event.Null? || event.Bool? || event.String? || event.Key? || Opening(event) || Closing(event) ==>
              Normal(event) == event
  {
  }

  lemma NormalConcat(a: seq<Event>, b: seq<Event>)
    ensures NormalAll(a + b) == NormalAll(a) + NormalAll(b)
  {
    hide Normal;
  }

  lemma {:induction false} ElementsEventsAre(e: Lexer.Env, f: Style, x: seq<Value>, d: nat)
    requires d > 0 && IsStyle(f) && !e.flags.numbersAsStrings
    requires ElementsPrintable(x, e.flags.validateEncoding) && Readable(e, ArrayValue(x))
    ensures var elements := ElementsSyntax(f, e.flags.validateEncoding, x, d);
            && Grammar.AreElements(e, elements) && Grammar.ElementCount(elements) == |x|
            && NormalAll(Grammar.ElementsEvents(e, elements)) == AcceptAll(x)
    decreases x, 1
  {
    hide Normal, FirstGap, NextGap, Grammar.IsBlank, IsStyle, Syntax, Printable, Accept, Grammar.Events, Grammar.IsTree;
    if x != [] {
      var validate := e.flags.validateEncoding;
      AllFront(x);
      SyntaxEvents(e, f, x[0], d);
      ElementsEventsAre(e, f, x[1..], d);
      GapsBlank(e.flags.comments, f, true, d);
      GapsBlank(e.flags.comments, f, true, d - 1);
      NormalConcat(Grammar.Events(e, Syntax(f, validate, x[0], d)),
                   Grammar.ElementsEvents(e, ElementsSyntax(f, validate, x[1..], d)));
    }
  }

  lemma {:induction false} MembersEventsAre(e: Lexer.Env, f: Style, x: seq<Member>, d: nat)
    requires d > 0 && IsStyle(f) && !e.flags.numbersAsStrings
    requires MembersPrintable(x, e.flags.validateEncoding) && Readable(e, ObjectValue(x))
    ensures var members := MembersSyntax(f, e.flags.validateEncoding, x, d);
            && Grammar.AreMembers(e, members) && Grammar.MemberCount(members) == |x|
            && NormalAll(Grammar.MembersEvents(e, members)) == AcceptMembers(x)
    decreases x, 1
  {
    var validate := e.flags.validateEncoding;
    if x == [] {
      NoMemberEvents(e, f, d);
    } else {
      FirstPrintable(x, validate);
      SyntaxEvents(e, f, x[0].value, d);
      MembersEventsAre(e, f, x[1..], d);
      MembersEventsStep(e, f, x, d);
    }
  }

  lemma MembersEventsStep(e: Lexer.Env, f: Style, x: seq<Member>, d: nat)
    requires d > 0 && IsStyle(f) && x != [] && (e.flags.validateEncoding ==> Utf8.IsUtf8Octets(x[0].name))
    requires var tree := Syntax(f, e.flags.validateEncoding, x[0].value, d);
             Grammar.IsTree(e, tree) && NormalAll(Grammar.Events(e, tree)) == Accept(x[0].value)
    requires var rest := MembersSyntax(f, e.flags.validateEncoding, x[1..], d);
             && Grammar.AreMembers(e, rest) && Grammar.MemberCount(rest) == |x| - 1
             && NormalAll(Grammar.MembersEvents(e, rest)) == AcceptMembers(x[1..])
    ensures var members := MembersSyntax(f, e.flags.validateEncoding, x, d);
            && Grammar.AreMembers(e, members) && Grammar.MemberCount(members) == |x|
            && NormalAll(Grammar.MembersEvents(e, members)) == AcceptMembers(x)
  {
    hide Normal, NormalAll, IsStyle, Syntax, MembersSyntax, Accept, AcceptMembers, Grammar.Events, Grammar.IsTree,
      Grammar.AreMembers, Grammar.MembersEvents, Grammar.MemberCount, ItemsOf, Grammar.AreItems, Grammar.ItemsText,
      Grammar.ItemsValue, Utf8.IsUtf8Octets, Grammar.IsBlank, Escaped;
    MembersFront(x);
    StringWritten(x[0].name, e.flags.validateEncoding);
    FirstSyntax(e.flags.comments, f, e.flags.validateEncoding, x, d);
    FirstMemberEvents(e, MembersSyntax(f, e.flags.validateEncoding, x, d), x[0].name);
    var a, b := Accept(x[0].value), AcceptMembers(x[1..]);
    assert [Key(x[0].name)] + a + b == [Key(x[0].name)] + (a + b);
  }

  lemma NoMemberEvents(e: Lexer.Env, f: Style, d: nat)
    requires d > 0
    ensures var members := MembersSyntax(f, e.flags.validateEncoding, [], d);
            && Grammar.AreMembers(e, members) && Grammar.MemberCount(members) == 0
            && NormalAll(Grammar.MembersEvents(e, members)) == AcceptMembers([])
  {
  }

  lemma FirstSyntax(comments: bool, f: Style, validate: bool, x: seq<Member>, d: nat)
    requires d > 0 && x != [] && IsStyle(f)
    ensures var m := MembersSyntax(f, validate, x, d);
            && m.Members? && m.name == ItemsOf(x[0].name, validate) && m.v == Syntax(f, validate, x[0].value, d)
            && m.rest == MembersSyntax(f, validate, x[1..], d)
            && Grammar.IsBlank(comments, m.wn) && Grammar.IsBlank(comments, m.wc)
            && Grammar.IsBlank(comments, m.w1) && Grammar.IsBlank(comments, m.w2)
            && (m.rest.NoMembers? ==> m.w2 == [])
  {
    hide FirstGap, NextGap, Syntax, ItemsOf, Grammar.IsBlank;
    GapsBlank(comments, f, false, d);
    GapsBlank(comments, f, false, d - 1);
  }

  lemma FirstMemberEvents(e: Lexer.Env, x: Grammar.Members, name: Text)
    requires x.Members? && Grammar.AreItems(x.name, e.flags.validateEncoding)
    requires Grammar.IsBlank(e.flags.comments, x.wn) && Grammar.IsBlank(e.flags.comments, x.wc)
    requires Grammar.IsTree(e, x.v) && Grammar.IsBlank(e.flags.comments, x.w1) && Grammar.IsBlank(e.flags.comments, x.w2)
    requires (x.rest.NoMembers? ==> x.w2 == []) && Grammar.AreMembers(e, x.rest)
    requires Grammar.ItemsValue(x.name, e.flags.validateEncoding) == name
    ensures Grammar.AreMembers(e, x) && Grammar.MemberCount(x) == 1 + Grammar.MemberCount(x.rest)
    ensures NormalAll(Grammar.MembersEvents(e, x)) ==
            [Key(name)] + NormalAll(Grammar.Events(e, x.v)) + NormalAll(Grammar.MembersEvents(e, x.rest))
  {
    hide Normal, NormalAll, Grammar.Events, Grammar.IsTree, Grammar.IsBlank, Grammar.AreItems, Grammar.ItemsValue;
    OneNormal(Key(name));
    NormalConcat([Key(name)], Grammar.Events(e, x.v));
    NormalConcat([Key(name)] + Grammar.Events(e, x.v), Grammar.MembersEvents(e, x.rest));
  }

  // Main theorems

  /** The text of a value, as `Accept` into a fresh `PrettyWriter` puts it. */
  function Printed(f: Style, v: Value): Option<Text> {
    match WrittenAll(f, Output([], [], false), Accept(v))
    case None => None
    case Some(w) => Some(w.text)
  }

  /** Printing runs into no assertion of the writer, and puts a text of the grammar. */
  lemma PrintedIsSyntax(f: Style, validate: bool, v: Value)
    requires Printable(v, validate)
    ensures WrittenAll(f, Output([], [], false), Accept(v))
            == Some(Output(Grammar.TreeText(Syntax(f, validate, v, 0)), [], true))
  {
    hide Grammar.TreeText, Syntax, Accept;
    var t := Grammar.TreeText(Syntax(f, validate, v, 0));
    ValuePrinted(f, validate, Output([], [], false), v);
    assert [] + ([] + t) == t;
  }

  /** A document cannot tell an event from its normal form. */
  lemma NormalHandled(stack: seq<Value>, event: Event)
    ensures Handled(stack, Normal(event)) == Handled(stack, event)
  {
    hide ArePairs, MembersOf;
    match event
    case Int(i) => ConstructorsAgree(i);
    case Uint(i) => ConstructorsAgree(i);
    case Int64(i) => ConstructorsAgree(i);
    case Uint64(i) => ConstructorsAgree(i);
    case _ =>
  }

  lemma {:induction false} NormalFed(stack: seq<Value>, events: seq<Event>)
    ensures Fed(stack, NormalAll(events)) == Fed(stack, events)
    decreases |events|
  {
    hide Handled, Normal;
    if events != [] {
      var before, last := events[..|events| - 1], events[|events| - 1];
      NormalFed(stack, before);
      assert NormalAll(events)[..|events| - 1] == NormalAll(before);
      match Fed(stack, before)
      case None =>
      case Some(s) => NormalHandled(s, last);
    }
  }

  lemma {:induction false} PrintableRebuilt(v: Value, validate: bool)
    requires Printable(v, validate)
    ensures WellMade(v) && NoNumberAny(v)
    decreases v
  {
    match v
    case ArrayValue(x) =>
      forall i | 0 <= i < |x| ensures WellMade(x[i]) && NoNumberAny(x[i]) { PrintableRebuilt(x[i], validate); }
    case ObjectValue(x) =>
      forall i | 0 <= i < |x| ensures WellMade(x[i].value) && NoNumberAny(x[i].value) {
        PrintableRebuilt(x[i].value, validate);
      }
    case _ =>
  }

  /** In any style, and with any parse flags that keep numbers numbers, both parsers read
      the printed text of a value to events that build exactly that value. */
  lemma PrintThenParse(e: Lexer.Env, f: Style, v: Value)
    requires IsStyle(f) && Printable(v, e.flags.validateEncoding) && Readable(e, v) && !e.flags.numbersAsStrings
    requires Completeness.AcceptsAll(e) && Some(e.text) == Printed(f, v)
    ensures var r, i := Recursive.Parse(e), Iterative.Parse(e);
            && r.Ok() && i.Ok() && r.events == i.events
            && NormalAll(r.events) == Accept(v) && Fed([], r.events) == Some([v])
  {
    hide Recursive.Parse, Iterative.Parse, Grammar.TreeText, Syntax, Accept, Grammar.Events, Grammar.IsTree,
      Completeness.AcceptsAll, NormalAll, WellMade, NoNumberAny;
    var tree := Syntax(f, e.flags.validateEncoding, v, 0);
    PrintedIsSyntax(f, e.flags.validateEncoding, v);
    SyntaxEvents(e, f, v, 0);
    assert [] + (Grammar.TreeText(tree) + []) == Grammar.TreeText(tree);
    Completeness.DocumentParsed(e, [], tree, []);
    Agreement.ParsersAgree(e);
    NormalFed([], Grammar.Events(e, tree));
    PrintableRebuilt(v, e.flags.validateEncoding);
    AcceptBuilds([], v);
    RebuiltSame(v);
    assert [] + [v] == [v];
  }

  /** What `Accept` sends determines a value that holds no number of every type. */
  lemma AcceptInjective(a: Value, b: Value)
    requires WellMade(a) && WellMade(b) && NoNumberAny(a) && NoNumberAny(b) && Accept(a) == Accept(b)
    ensures a == b
  {
    hide Accept, WellMade, NoNumberAny;
    AcceptBuilds([], a);
    AcceptBuilds([], b);
    RebuiltSame(a);
    RebuiltSame(b);
    assert ([] + [a])[0] == a && ([] + [b])[0] == b;
  }

  /** `Accept` with a fresh writer as handler. */
  method Print(style: Style, v: Value) returns (text: Text)
    requires IsStyle(style) && Printable(v, false)
    ensures Some(text) == Printed(style, v)
  {
    hide Written, Accept;
    PrintedIsSyntax(style, false, v);
    var writer := new PrettyWriter(style);
    var events := Accept(v);
    for i := 0 to |events|
      invariant fresh(writer) && writer.style == style
      invariant Some(writer.Out()) == WrittenAll(style, Output([], [], false), events[..i])
    {
      WrittenPrefix(style, Output([], [], false), events, i + 1);
      assert events[..i + 1][..i] == events[..i];
      writer.Handle(events[i]);
    }
    assert events[..|events|] == events;
    text := writer.os;
  }

  lemma {:induction false} WrittenPrefix(f: Style, w: Output, events: seq<Event>, i: nat)
    requires i <= |events| && WrittenAll(f, w, events).Some?
    ensures WrittenAll(f, w, events[..i]).Some?
    decreases |events|
  {
    if i == |events| {
      assert events[..i] == events;
    } else {
      WrittenPrefix(f, w, events[..|events| - 1], i);
      assert events[..|events| - 1][..i] == events[..i];
    }
  }

  /** What is in range depends on the flags and the limits of the reader only. */
  lemma {:induction false} SameReadable(e: Lexer.Env, e': Lexer.Env, v: Value)
    requires e.flags == e'.flags && e.integerTooBig == e'.integerTooBig && e.literalTooBig == e'.literalTooBig
    requires Readable(e, v)
    ensures Readable(e', v)
    decreases v
  {
    hide IsDouble, IsDoubleText, Grammar.NumeralText;
    match v
    case ArrayValue(x) => forall i | 0 <= i < |x| ensures Readable(e', x[i]) { SameReadable(e, e', x[i]); }
    case ObjectValue(x) => forall i | 0 <= i < |x| ensures Readable(e', x[i].value) { SameReadable(e, e', x[i].value); }
    case _ =>
  }

  /** The whole way round, with the writer, the buffer, the reader and the document: in
      situ or not, with either parser, the document ends with the value that was printed. */
  method PrintAndParse(style: Style, v: Value, flags: Lexer.Flags, insitu: bool, iterative: bool,
                       integerTooBig: (bool, Text) -> bool, literalTooBig: Text -> bool)
      returns (document: GenericDocument)
    requires IsStyle(style) && Printable(v, flags.validateEncoding) && Printable(v, false) && !flags.numbersAsStrings
    requires Readable(Lexer.Env([], flags, _ => true, integerTooBig, literalTooBig), v)
    ensures document.root == v
  {
    hide Accept, NormalAll, WellMade, NoNumberAny, Recursive.Parse, Iterative.Parse, Printable, Overrun.Overruns;
    var text := Print(style, v);
    var e := Lexer.Env(text, flags, _ => true, integerTooBig, literalTooBig);
    var buffer := new Byte[|text| + 1](i requires 0 <= i => At(text, i));
    var reader := new ReaderObject.Reader(e, buffer, insitu);
    document := new GenericDocument();
    SameReadable(Lexer.Env([], flags, _ => true, integerTooBig, literalTooBig), e, v);
    PrintThenParse(e, style, v);
    Overrun.OverrunsExactly(e);
    document.ParseStream(reader, iterative);
    PrintableRebuilt(v, false);
    AcceptInjective(document.root, v);
  }
}
