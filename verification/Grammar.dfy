/** Concrete syntax trees of the JSON grammar (RFC 8259, sections 2 to 7) and of the
    extensions that flags switch on: the text and the events of a tree, spelled apart
    from any parser. */
module Grammar {
  import opened Bytes
  import opened Sax
  import Lexer
  import Utf8

  type Env = Lexer.Env

  /** Insignificant white space, section 2. */
  predicate Space(c: Byte) {
    c == 0x20 || c == 0x09 || c == 0x0A || c == 0x0D
  }

  predicate Digit(c: Byte) {
    0x30 <= c <= 0x39
  }

  predicate Digits(s: Text) {
    forall i :: 0 <= i < |s| ==> Digit(s[i])
  }

  function PowerOfTen(n: nat): nat {
    if n == 0 then 1 else 10 * PowerOfTen(n - 1)
  }

  /** A decimal number, place by place. */
  function ValueOf(s: Text): nat
    requires Digits(s)
  {
    if s == [] then 0 else (s[0] - 0x30) * PowerOfTen(|s| - 1) + ValueOf(s[1..])
  }

  // Strings, section 7

  /** What stands between two quotation marks, piece by piece. */
  datatype Item =
    | Raw(bytes: Text)
    | Escape(letter: Byte)
    | Unicode(hex: Text)
    | Pair(hi: Text, lo: Text)

  /** What a backslash and this letter stand for. */
  function EscapeOf(letter: Byte): Option<Byte> {
    match letter
    case 0x22 => Some(0x22)
    case 0x5C => Some(0x5C)
    case 0x2F => Some(0x2F)
    case 0x62 => Some(0x08)
    case 0x66 => Some(0x0C)
    case 0x6E => Some(0x0A)
    case 0x72 => Some(0x0D)
    case 0x74 => Some(0x09)
    case _ => None
  }

  const LOWER_HEX: Text :=
    [0x30, 0x31, 0x32, 0x33, 0x34, 0x35, 0x36, 0x37, 0x38, 0x39, 0x61, 0x62, 0x63, 0x64, 0x65, 0x66]
  const UPPER_HEX: Text :=
    [0x30, 0x31, 0x32, 0x33, 0x34, 0x35, 0x36, 0x37, 0x38, 0x39, 0x41, 0x42, 0x43, 0x44, 0x45, 0x46]

  /** The first place of a byte in a table, or its length. */
  function Place(table: Text, c: Byte): (i: nat)
    ensures i <= |table| && (i < |table| ==> table[i] == c)
    ensures forall j :: 0 <= j < i ==> table[j] != c
  {
    if table == [] || table[0] == c then 0 else 1 + Place(table[1..], c)
  }

  predicate IsHexDigit(c: Byte) {
    c in LOWER_HEX || c in UPPER_HEX
  }

  function HexOf(c: Byte): nat {
    if c in LOWER_HEX then Place(LOWER_HEX, c) else Place(UPPER_HEX, c)
  }

  predicate IsHex4(h: Text) {
    |h| == 4 && IsHexDigit(h[0]) && IsHexDigit(h[1]) && IsHexDigit(h[2]) && IsHexDigit(h[3])
  }

  function Hex(h: Text): nat
    requires IsHex4(h)
  {
    4096 * HexOf(h[0]) + 256 * HexOf(h[1]) + 16 * HexOf(h[2]) + HexOf(h[3])
  }

  /** Section 7, with two differences of this reader: an escaped high surrogate must
      begin a pair, and raw bytes need not be UTF-8 unless the encoding is validated. */
  predicate IsItem(item: Item, validate: bool) {
    match item
    case Raw(s) =>
      && s != [] && s[0] >= 0x20 && s[0] != 0x22 && s[0] != 0x5C
      && if validate then Utf8.IsUtf8Char(s) else |s| == 1
    case Escape(c) => EscapeOf(c).Some?
    case Unicode(h) => IsHex4(h) && !(0xD800 <= Hex(h) <= 0xDBFF)
    case Pair(h, l) => IsHex4(h) && IsHex4(l) && 0xD800 <= Hex(h) <= 0xDBFF && 0xDC00 <= Hex(l) <= 0xDFFF
  }

  const BACKSLASH_U: Text := [0x5C, 0x75]

  function ItemText(item: Item): Text {
    match item
    case Raw(s) => s
    case Escape(c) => [0x5C, c]
    case Unicode(h) => BACKSLASH_U + h
    case Pair(h, l) => BACKSLASH_U + (h + (BACKSLASH_U + l))
  }

  /** The bytes that a piece stands for. */
  function ItemValue(item: Item, validate: bool): Text
    requires IsItem(item, validate)
  {
    match item
    case Raw(s) => s
    case Escape(c) => [EscapeOf(c).value]
    case Unicode(h) => HexBound(h); Utf8.Encode(Hex(h))
    case Pair(h, l) => Utf8.Encode((Hex(h) - 0xD800) * 0x400 + (Hex(l) - 0xDC00) + 0x10000)
  }

  lemma HexBound(h: Text)
    requires IsHex4(h)
    ensures Hex(h) <= 0xFFFF
  {
    hide Place;
  }

  predicate AreItems(items: seq<Item>, validate: bool) {
    forall i :: 0 <= i < |items| ==> IsItem(items[i], validate)
  }

  function ItemsText(items: seq<Item>): Text {
    if items == [] then [] else ItemText(items[0]) + ItemsText(items[1..])
  }

  function ItemsValue(items: seq<Item>, validate: bool): Text
    requires AreItems(items, validate)
  {
    if items == [] then [] else ItemValue(items[0], validate) + ItemsValue(items[1..], validate)
  }

  function QuotedText(items: seq<Item>): Text {
    [0x22] + (ItemsText(items) + [0x22])
  }

  // Numbers, section 6

  datatype Power = Power(letter: Byte, sign: Text, digits: Text)

  datatype Numeral = Numeral(minus: bool, whole: Text, fraction: Option<Text>, power: Option<Power>)

  predicate IsSign(s: Text) {
    s == [] || s == [0x2B] || s == [0x2D]
  }

  predicate IsWhole(s: Text) {
    s != [] && Digits(s) && (s[0] == 0x30 ==> |s| == 1)
  }

  const NAN: Text := [0x4E, 0x61, 0x4E]
  const INF: Text := [0x49, 0x6E, 0x66]
  const INITY: Text := [0x69, 0x6E, 0x69, 0x74, 0x79]

  /** What may stand for the whole part where NaN and Infinity are allowed: this reader
      forgets what it has matched of the former when it tries the latter. */
  predicate IsSpecial(s: Text) {
    s == NAN || exists k :: 0 <= k <= 2 && (s == NAN[..k] + INF || s == NAN[..k] + (INF + INITY))
  }

  predicate IsNumeral(n: Numeral) {
    && (IsWhole(n.whole) || IsSpecial(n.whole))
    && (n.fraction.Some? ==> n.fraction.value != [] && Digits(n.fraction.value))
    && (n.power.Some? ==>
          && (n.power.value.letter == 0x65 || n.power.value.letter == 0x45)
          && IsSign(n.power.value.sign)
          && n.power.value.digits != [] && Digits(n.power.value.digits))
  }

  function SignText(n: Numeral): Text {
    if n.minus then [0x2D] else []
  }

  function FractionText(n: Numeral): Text {
    if n.fraction.None? then [] else [0x2E] + n.fraction.value
  }

  function PowerText(n: Numeral): Text {
    if n.power.None? then [] else [n.power.value.letter] + (n.power.value.sign + n.power.value.digits)
  }

  function NumeralText(n: Numeral): Text {
    SignText(n) + (n.whole + (FractionText(n) + PowerText(n)))
  }

  /** The event for an integer: the first of int, unsigned, int64 and uint64 that holds
      it, the signed ones being for literals with a sign; none if 64 bits do not. */
  function ExactEvent(minus: bool, value: nat): Option<Event> {
    if minus then
      if value <= 0x8000_0000 then Some(Int(-(value as int)))
      else if value <= 0x8000_0000_0000_0000 then Some(Int64(-(value as int)))
      else None
    else if value < 0x1_0000_0000 then Some(Uint(value))
    else if value < 0x1_0000_0000_0000_0000 then Some(Uint64(value))
    else None
  }

  /** The flags allow the literal, and it does not run into `NumberTooBig`. */
  predicate InRange(e: Env, n: Numeral)
    requires IsNumeral(n)
  {
    && (if IsWhole(n.whole) then
          ExactEvent(n.minus, ValueOf(n.whole)).Some? || !e.integerTooBig(n.minus, n.whole)
        else e.flags.nanAndInf)
    && (n.power.Some? && n.power.value.sign != [0x2D] ==> !e.literalTooBig(NumeralText(n)))
  }

  function NumeralEvent(e: Env, n: Numeral): Event
    requires IsNumeral(n)
  {
    if e.flags.numbersAsStrings then RawNumber(NumeralText(n))
    else if n.fraction.None? && n.power.None? && IsWhole(n.whole) then
      match ExactEvent(n.minus, ValueOf(n.whole))
      case Some(event) => event
      case None => Double(NumeralText(n))
    else Double(NumeralText(n))
  }

  // White space and comments

  /** From one mark to the first other one. */
  predicate IsBlockComment(s: Text) {
    && 4 <= |s| && s[0] == 0x2F && s[1] == 0x2A && s[|s| - 2] == 0x2A && s[|s| - 1] == 0x2F
    && (forall i :: 2 <= i < |s| - 2 ==> !(s[i] == 0x2A && s[i + 1] == 0x2F))
    && forall i :: 0 <= i < |s| ==> s[i] != 0
  }

  /** Two slashes and the rest of a line, without what ends it. */
  predicate IsLine(s: Text) {
    2 <= |s| && s[0] == 0x2F && s[1] == 0x2F && forall i :: 0 <= i < |s| ==> s[i] != 0x0A && s[i] != 0
  }

  predicate IsComment(s: Text) {
    IsBlockComment(s) || (s != [] && IsLine(s[..|s| - 1]) && s[|s| - 1] == 0x0A)
  }

  /** White space, and comments where the flag allows them. */
  predicate IsBlank(comments: bool, w: Text)
    decreases |w|
  {
    || w == []
    || (Space(w[0]) && IsBlank(comments, w[1..]))
    || (comments && exists n :: 1 <= n <= |w| && IsComment(w[..n]) && IsBlank(comments, w[n..]))
  }

  /** At the end of a text, the last line may be a comment too. */
  predicate IsLastBlank(comments: bool, w: Text) {
    IsBlank(comments, w) || (comments && exists n :: 0 <= n <= |w| && IsBlank(comments, w[..n]) && IsLine(w[n..]))
  }

  // Values

  datatype Tree =
    | NullTree
    | BoolTree(b: bool)
    | StringTree(items: seq<Item>)
    | NumberTree(n: Numeral)
    | ArrayTree(w: Text, elements: Elements)
    | ObjectTree(w: Text, members: Members)

  /** The last element is followed by white space `w1` only, or by `w1`, a trailing
      comma and `w2`; any other by `w1`, a comma and `w2`. */
  datatype Elements =
    | NoElements
    | TrailingElements
    | Elements(v: Tree, w1: Text, w2: Text, rest: Elements)

  datatype Members =
    | NoMembers
    | TrailingMembers
    | Members(name: seq<Item>, wn: Text, wc: Text, v: Tree, w1: Text, w2: Text, rest: Members)

  function TreeText(v: Tree): Text {
    match v
    case NullTree => [0x6E, 0x75, 0x6C, 0x6C]
    case BoolTree(b) => if b then [0x74, 0x72, 0x75, 0x65] else [0x66, 0x61, 0x6C, 0x73, 0x65]
    case StringTree(items) => QuotedText(items)
    case NumberTree(n) => NumeralText(n)
    case ArrayTree(w, elements) => [0x5B] + (w + (ElementsText(elements) + [0x5D]))
    case ObjectTree(w, members) => [0x7B] + (w + (MembersText(members) + [0x7D]))
  }

  function ElementsText(x: Elements): Text {
    match x
    case NoElements => []
    case TrailingElements => []
    case Elements(v, w1, w2, rest) =>
      TreeText(v) + (w1 + (if rest.NoElements? then [] else [0x2C] + (w2 + ElementsText(rest))))
  }

  function MembersText(x: Members): Text {
    match x
    case NoMembers => []
    case TrailingMembers => []
    case Members(name, wn, wc, v, w1, w2, rest) =>
      QuotedText(name) + (wn + ([0x3A] + (wc + (TreeText(v) + (w1 +
        (if rest.NoMembers? then [] else [0x2C] + (w2 + MembersText(rest))))))))
  }

  /** The grammar proper, for a reader with these flags and number limits. */
  predicate IsTree(e: Env, v: Tree) {
    match v
    case NullTree => true
    case BoolTree(_) => true
    case StringTree(items) => AreItems(items, e.flags.validateEncoding)
    case NumberTree(n) => IsNumeral(n) && InRange(e, n)
    case ArrayTree(w, elements) =>
      IsBlank(e.flags.comments, w) && !elements.TrailingElements? && AreElements(e, elements)
    case ObjectTree(w, members) =>
      IsBlank(e.flags.comments, w) && !members.TrailingMembers? && AreMembers(e, members)
  }

  predicate AreElements(e: Env, x: Elements) {
    match x
    case NoElements => true
    case TrailingElements => e.flags.trailingCommas
    case Elements(v, w1, w2, rest) =>
      && IsTree(e, v) && IsBlank(e.flags.comments, w1) && IsBlank(e.flags.comments, w2)
      && (rest.NoElements? ==> w2 == []) && AreElements(e, rest)
  }

  predicate AreMembers(e: Env, x: Members) {
    match x
    case NoMembers => true
    case TrailingMembers => e.flags.trailingCommas
    case Members(name, wn, wc, v, w1, w2, rest) =>
      && AreItems(name, e.flags.validateEncoding) && IsBlank(e.flags.comments, wn) && IsBlank(e.flags.comments, wc)
      && IsTree(e, v) && IsBlank(e.flags.comments, w1) && IsBlank(e.flags.comments, w2)
      && (rest.NoMembers? ==> w2 == []) && AreMembers(e, rest)
  }

  function ElementCount(x: Elements): nat {
    if x.Elements? then 1 + ElementCount(x.rest) else 0
  }

  function MemberCount(x: Members): nat {
    if x.Members? then 1 + MemberCount(x.rest) else 0
  }

  /** The events of a tree; a closing event carries the number of direct children. */
  function Events(e: Env, v: Tree): seq<Event>
    requires IsTree(e, v)
  {
    match v
    case NullTree => [Null]
    case BoolTree(b) => [Bool(b)]
    case StringTree(items) => [String(ItemsValue(items, e.flags.validateEncoding))]
    case NumberTree(n) => [NumeralEvent(e, n)]
    case ArrayTree(_, elements) => [StartArray] + ElementsEvents(e, elements) + [EndArray(ElementCount(elements))]
    case ObjectTree(_, members) => [StartObject] + MembersEvents(e, members) + [EndObject(MemberCount(members))]
  }

  function ElementsEvents(e: Env, x: Elements): seq<Event>
    requires AreElements(e, x)
  {
    if x.Elements? then Events(e, x.v) + ElementsEvents(e, x.rest) else []
  }

  function MembersEvents(e: Env, x: Members): seq<Event>
    requires AreMembers(e, x)
  {
    if x.Members? then
      [Key(ItemsValue(x.name, e.flags.validateEncoding))] + Events(e, x.v) + MembersEvents(e, x.rest)
    else []
  }

  predicate EndsInInf(s: Text) {
    |s| >= 3 && s[|s| - 3..] == INF
  }

  /** A byte with which a number cannot end in front of it: the reader would go on. */
  predicate Prolongs(n: Numeral, c: Byte) {
    || (Digit(c) && (n.fraction.Some? || n.power.Some? || (IsWhole(n.whole) && n.whole != [0x30])))
    || (n.power.None? && (c == 0x65 || c == 0x45))
    || (n.power.None? && n.fraction.None? && (c == 0x2E || (c == 0x69 && EndsInInf(n.whole))))
  }

  /** Does the value end in front of this byte? Only a number may not. */
  predicate Ends(v: Tree, c: Byte) {
    v.NumberTree? ==> !Prolongs(v.n, c)
  }

  /** What may follow a value in a JSON text. */
  predicate Delimits(c: Byte) {
    c == 0 || Space(c) || c == 0x2F || c == 0x2C || c == 0x5D || c == 0x7D
  }
}
