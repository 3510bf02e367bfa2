/** The SAX events a reader sends to its handler. */
module Sax {
  import opened Bytes

  type int32 = i: int | -0x8000_0000 <= i < 0x8000_0000
  type uint32 = i: int | 0 <= i < 0x1_0000_0000
  type int64 = i: int | -0x8000_0000_0000_0000 <= i < 0x8000_0000_0000_0000
  type uint64 = i: int | 0 <= i < 0x1_0000_0000_0000_0000

  datatype Event =
    | Null
    | Bool(b: bool)
    | Int(int_: int32)
    | Uint(uint_: uint32)
    | Int64(int64_: int64)
    | Uint64(uint64_: uint64)
    | Double(lexeme: Text)
    | RawNumber(s: Text)
    | String(s: Text)
    | Key(s: Text)
    | StartObject
    | EndObject(memberCount: nat)
    | StartArray
    | EndArray(elementCount: nat)

  predicate Opening(event: Event) {
    event.StartObject? || event.StartArray?
  }

  predicate Closing(event: Event) {
    event.EndObject? || event.EndArray?
  }

  /** A whole value in one event. */
  predicate IsScalar(event: Event) {
    !Opening(event) && !Closing(event) && !event.Key?
  }

  /** A handler answers each event from everything it has been sent so far. */
  type Handler = seq<Event> -> bool
}

/** What one leaf of a JSON text looks like to `GenericReader` (reader.h): white
    space and comments, strings, numbers and the three literal names. These functions
    say what the loops of the class `Reader` compute. */
module Lexer {
  import opened Bytes
  import opened Sax
  import Utf8

  const QUOTE: Byte := 0x22
  const BACKSLASH: Byte := 0x5C
  const SLASH: Byte := 0x2F
  const STAR: Byte := 0x2A
  const NEWLINE: Byte := 0x0A
  const COMMA: Byte := 0x2C
  const COLON: Byte := 0x3A
  const LBRACKET: Byte := 0x5B
  const RBRACKET: Byte := 0x5D
  const LBRACE: Byte := 0x7B
  const RBRACE: Byte := 0x7D
  const MINUS: Byte := 0x2D
  const DOT: Byte := 0x2E
  const LOWER_I: Byte := 0x69
  const LOWER_U: Byte := 0x75
  const UPPER_I: Byte := 0x49
  const UPPER_N: Byte := 0x4E

  const NULL_NAME: Text := [0x6E, 0x75, 0x6C, 0x6C]
  const TRUE_NAME: Text := [0x74, 0x72, 0x75, 0x65]
  const FALSE_NAME: Text := [0x66, 0x61, 0x6C, 0x73, 0x65]
  const NAN_NAME: Text := [0x4E, 0x61, 0x4E]
  const INF_NAME: Text := [0x49, 0x6E, 0x66]
  const INITY_NAME: Text := [0x69, 0x6E, 0x69, 0x74, 0x79]

  datatype ErrorCode =
    | DocumentEmpty
    | DocumentRootNotSingular
    | ValueInvalid
    | ObjectMissName
    | ObjectMissColon
    | ObjectMissCommaOrCurlyBracket
    | ArrayMissCommaOrSquareBracket
    | StringUnicodeEscapeInvalidHex
    | StringUnicodeSurrogateInvalid
    | StringEscapeInvalid
    | StringMissQuotationMark
    | StringInvalidEncoding
    | NumberTooBig
    | NumberMissFraction
    | NumberMissExponent
    | Termination
    | UnspecificSyntaxError

  datatype Error = Error(code: ErrorCode, offset: nat)

  /** The parse flags that change what is accepted or sent. */
  datatype Flags = Flags(
    validateEncoding: bool,
    stopWhenDone: bool,
    comments: bool,
    numbersAsStrings: bool,
    trailingCommas: bool,
    nanAndInf: bool)

  /** Everything a run of the reader depends on. The two predicates stand for the
      floating-point comparisons of `ParseNumber` that raise `NumberTooBig`: one on
      the sign and the digits of an integer part too big for 64 bits, one on a whole
      literal. */
  datatype Env = Env(
    text: Text,
    flags: Flags,
    handler: Handler,
    integerTooBig: (bool, Text) -> bool,
    literalTooBig: Text -> bool)

  // White space and comments

  predicate IsWs(c: Byte) {
    c == 0x20 || c == 0x0A || c == 0x0D || c == 0x09
  }

  /** `SkipWhitespace` from `p`. */
  function SkipWs(t: Text, p: nat): (q: nat)
    ensures p <= q && (p <= |t| ==> q <= |t|)
    decreases |t| - p
  {
    if IsWs(At(t, p)) then SkipWs(t, p + 1) else p
  }

  datatype Skipped = SkipOk(pos: nat) | SkipBad(offset: nat)

  /** Inside a block comment: past the closing mark, or bad at the end of the text. */
  function BlockEnd(t: Text, p: nat): (r: Skipped)
    ensures r.SkipOk? ==> p < r.pos <= |t|
    ensures r.SkipBad? ==> p <= r.offset
    decreases |t| - p
  {
    if At(t, p) == 0 then SkipBad(p)
    else if At(t, p) == STAR && At(t, p + 1) == SLASH then SkipOk(p + 2)
    else BlockEnd(t, p + 1)
  }

  function LineEnd(t: Text, p: nat): (q: nat)
    ensures p <= q && (p <= |t| ==> q <= |t|)
    decreases |t| - p
  {
    if At(t, p) == 0 then p
    else if At(t, p) == NEWLINE then p + 1
    else LineEnd(t, p + 1)
  }

  /** A comment whose first slash stands in front of `p`. */
  function Comment(t: Text, p: nat): (r: Skipped)
    ensures r.SkipOk? ==> p < r.pos <= |t|
  {
    if At(t, p) == STAR then BlockEnd(t, p + 1)
    else if At(t, p) == SLASH then SkipOk(LineEnd(t, p + 1))
    else SkipBad(p)
  }

  /** `SkipWhitespaceAndComments` from `p`. */
  function Skip(t: Text, p: nat, comments: bool): (r: Skipped)
    ensures r.SkipOk? ==> p <= r.pos && (p <= |t| ==> r.pos <= |t|)
    decreases |t| - p
  {
    var q := SkipWs(t, p);
    if !comments || At(t, q) != SLASH then SkipOk(q)
    else match Comment(t, q + 1)
      case SkipOk(r) => Skip(t, r, comments)
      case SkipBad(o) => SkipBad(o)
  }

  // Strings

  /** The `escape` table of `ParseStringToStream`; 0 where there is no escape. */
  function Unescaped(e: Byte): Byte {
    match e
    case 0x22 => 0x22
    case 0x2F => 0x2F
    case 0x5C => 0x5C
    case 0x62 => 0x08
    case 0x66 => 0x0C
    case 0x6E => 0x0A
    case 0x72 => 0x0D
    case 0x74 => 0x09
    case _ => 0
  }

  function HexValue(c: Byte): (r: Option<nat>)
    ensures r.Some? ==> r.value < 16
  {
    if 0x30 <= c <= 0x39 then Some(c - 0x30)
    else if 0x41 <= c <= 0x46 then Some(c - 0x41 + 10)
    else if 0x61 <= c <= 0x66 then Some(c - 0x61 + 10)
    else None
  }

  /** What `codepoint` stays below while `n` of four digits are still to come. */
  function HexLimit(n: nat): nat
    requires n <= 4
  {
    match n case 4 => 1 case 3 => 0x10 case 2 => 0x100 case 1 => 0x1000 case _ => 0x10000
  }

  /** `ParseHex4` with `n` digits still to come from `p`. */
  function HexFrom(t: Text, p: nat, n: nat, acc: nat): (r: Option<nat>)
    requires n <= 4 && acc < HexLimit(n)
    ensures r.Some? ==> r.value <= 0xFFFF && (p <= |t| ==> p + n <= |t|)
    decreases n
  {
    if n == 0 then Some(acc)
    else match HexValue(At(t, p))
      case None => None
      case Some(d) => HexFrom(t, p + 1, n - 1, acc * 16 + d)
  }

  function Hex4(t: Text, p: nat): Option<nat> {
    HexFrom(t, p, 4, 0)
  }

  datatype Piece =
    | Quote
    | Chunk(taken: nat, out: Text)
    | BadPiece(error: Error)

  /** A `\u` escape at `p`, with its second half when it opens a surrogate pair. */
  function UnicodeEscape(t: Text, p: nat): (r: Piece)
    ensures !r.Quote? && (r.BadPiece? ==> !r.error.code.Termination?)
    ensures r.Chunk? ==> 1 <= |r.out| < r.taken && (p + 2 <= |t| ==> p + r.taken <= |t|)
  {
    match Hex4(t, p + 2)
    case None => BadPiece(Error(StringUnicodeEscapeInvalidHex, p))
    case Some(u) =>
      if 0xD800 <= u <= 0xDBFF then
        if At(t, p + 6) != BACKSLASH || At(t, p + 7) != LOWER_U then
          BadPiece(Error(StringUnicodeSurrogateInvalid, p))
        else match Hex4(t, p + 8)
          case None => BadPiece(Error(StringUnicodeEscapeInvalidHex, p))
          case Some(v) =>
            if v < 0xDC00 || v > 0xDFFF then BadPiece(Error(StringUnicodeSurrogateInvalid, p))
            else Chunk(12, Utf8.Encode((u - 0xD800) * 0x400 + (v - 0xDC00) + 0x10000))
      else Chunk(6, Utf8.Encode(u))
  }

  /** One turn of the loop in `ParseStringToStream`. */
  function NextPiece(t: Text, p: nat, validate: bool): (r: Piece)
    ensures r.Quote? ==> p < |t|
    ensures r.Chunk? ==> 1 <= |r.out| <= r.taken && p + r.taken <= |t|
    ensures r.BadPiece? ==> !r.error.code.Termination?
  {
    var c := At(t, p);
    if c == BACKSLASH then
      var e := At(t, p + 1);
      if Unescaped(e) != 0 then Chunk(2, [Unescaped(e)])
      else if e == LOWER_U then UnicodeEscape(t, p)
      else BadPiece(Error(StringEscapeInvalid, p))
    else if c == QUOTE then Quote
    else if c < 0x20 then
      BadPiece(Error(if c == 0 then StringMissQuotationMark else StringEscapeInvalid, p))
    else if !validate then Chunk(1, [c])
    else if Utf8.Valid(t, p) then
      Utf8.ValidIsUtf8Char(t, p);
      Chunk(Utf8.Taken(c), t[p..p + Utf8.Taken(c)])
    else BadPiece(Error(StringInvalidEncoding, p))
  }

  datatype Decoding = Decoded(pos: nat, out: Text) | Undecodable(error: Error)

  /** The rest of a string from `p`, when `out` has been decoded before it. */
  function StringFrom(t: Text, p: nat, validate: bool, out: Text): (r: Decoding)
    ensures r.Decoded? ==> p < r.pos <= |t|
    ensures r.Decoded? ==> out <= r.out && |r.out| - |out| < r.pos - p
    ensures r.Undecodable? ==> !r.error.code.Termination?
    decreases |t| - p
  {
    match NextPiece(t, p, validate)
    case Quote => Decoded(p + 1, out)
    case Chunk(n, s) => StringFrom(t, p + n, validate, out + s)
    case BadPiece(e) => Undecodable(e)
  }

  // Numbers

  predicate IsDigit(c: Byte) {
    0x30 <= c <= 0x39
  }

  function DigitsEnd(t: Text, p: nat): (q: nat)
    ensures p <= q && (p <= |t| ==> q <= |t|)
    ensures !IsDigit(At(t, q))
    ensures forall i :: p <= i < q ==> IsDigit(At(t, i))
    decreases |t| - p
  {
    if IsDigit(At(t, p)) then DigitsEnd(t, p + 1) else p
  }

  predicate AllDigits(s: Text) {
    forall i :: 0 <= i < |s| ==> IsDigit(s[i])
  }

  /** The value of a decimal literal. */
  function Decimal(s: Text): nat
    requires AllDigits(s)
  {
    if s == [] then 0 else Decimal(s[..|s| - 1]) * 10 + (s[|s| - 1] - 0x30)
  }

  /** How many bytes of `word` a chain of `Consume` calls takes from `p`. */
  function Matched(t: Text, p: nat, word: Text): (n: nat)
    ensures n <= |word|
    ensures p <= |t| && (forall i :: 0 <= i < |word| ==> word[i] != 0) ==> p + n <= |t|
    decreases |word|
  {
    if word == [] || At(t, p) != word[0] then 0 else 1 + Matched(t, p + 1, word[1..])
  }

  datatype Scan = ScanOk(pos: nat) | ScanBad(error: Error)

  /** The NaN and Infinity branch of `ParseNumber`. The second chain of `Consume`
      starts where the first one stopped. */
  function NanOrInf(t: Text, p: nat): (r: Scan)
    ensures r.ScanOk? && p <= |t| ==> p < r.pos <= |t|
    ensures r.ScanBad? ==> !r.error.code.Termination?
  {
    var q := p + Matched(t, p, NAN_NAME);
    var r := q + Matched(t, q, INF_NAME);
    var s := r + Matched(t, r, INITY_NAME);
    if q == p + 3 then ScanOk(q)
    else if r < q + 3 then ScanBad(Error(ValueInvalid, r))
    else if At(t, r) != LOWER_I then ScanOk(r)
    else if s < r + 5 then ScanBad(Error(ValueInvalid, s))
    else ScanOk(s)
  }

  /** Where the digits of the integer part from `p` end, when there are any. */
  function IntegerEnd(t: Text, p: nat): (q: nat)
    ensures p <= q && (p <= |t| ==> q <= |t|)
    ensures q > p <==> IsDigit(At(t, p))
    ensures forall i :: p <= i < q ==> IsDigit(At(t, i))
  {
    if At(t, p) == 0x30 then p + 1 else DigitsEnd(t, p)
  }

  const MAX_INT32: nat := 0x7FFF_FFFF
  const MAX_UINT32: nat := 0xFFFF_FFFF
  const MAX_INT64: nat := 0x7FFF_FFFF_FFFF_FFFF
  const MAX_UINT64: nat := 0xFFFF_FFFF_FFFF_FFFF

  /** Does an integer literal fit 64 bits? */
  predicate Fits64(minus: bool, value: nat) {
    value <= if minus then MAX_INT64 + 1 else MAX_UINT64
  }

  /** The event for an integer literal that fits. */
  function IntegerEvent(minus: bool, value: nat): Event
    requires Fits64(minus, value)
  {
    if minus then if value <= MAX_INT32 + 1 then Int(-(value as int)) else Int64(-(value as int))
    else if value <= MAX_UINT32 then Uint(value) else Uint64(value)
  }

  function DigitsBetween(t: Text, p: nat, q: nat): (s: Text)
    requires p <= q <= |t| && forall i :: p <= i < q ==> IsDigit(At(t, i))
    ensures AllDigits(s)
  {
    assert forall i :: 0 <= i < q - p ==> t[p..q][i] == At(t, p + i);
    t[p..q]
  }

  /** The integer part of a literal: where it ends and, when it fits, its value. */
  datatype Whole = Whole(pos: nat, fits: bool, value: nat) | NotFinite(pos: nat) | BadWhole(error: Error)

  function WholePart(e: Env, p: nat): (r: Whole)
    requires p <= |e.text|
    ensures r.Whole? || r.NotFinite? ==> p < r.pos <= |e.text|
    ensures r.BadWhole? ==> !r.error.code.Termination?
    ensures r.Whole? && r.fits ==> Fits64(At(e.text, p) == MINUS, r.value)
  {
    var t := e.text;
    var minus := At(t, p) == MINUS;
    var q := if minus then p + 1 else p;
    var r := IntegerEnd(t, q);
    if r > q then
      var digits := DigitsBetween(t, q, r);
      var fits := Fits64(minus, Decimal(digits));
      if !fits && e.integerTooBig(minus, digits) then BadWhole(Error(NumberTooBig, p))
      else Whole(r, fits, if fits then Decimal(digits) else 0)
    else if e.flags.nanAndInf && (At(t, q) == UPPER_I || At(t, q) == UPPER_N) then
      match NanOrInf(t, q)
      case ScanOk(s) => NotFinite(s)
      case ScanBad(error) => BadWhole(error)
    else BadWhole(Error(ValueInvalid, q))
  }

  /** The fraction behind the integer part. */
  function Fraction(t: Text, p: nat): (r: Scan)
    requires p <= |t|
    ensures r.ScanOk? ==> p <= r.pos <= |t|
    ensures r.ScanBad? ==> !r.error.code.Termination?
  {
    if At(t, p) != DOT then ScanOk(p)
    else if !IsDigit(At(t, p + 1)) then ScanBad(Error(NumberMissFraction, p + 1))
    else ScanOk(DigitsEnd(t, p + 1))
  }

  /** The exponent of a literal that begins at `start`. */
  function Exponent(e: Env, start: nat, p: nat): (r: Scan)
    requires start <= p <= |e.text|
    ensures r.ScanOk? ==> p <= r.pos <= |e.text|
    ensures r.ScanBad? ==> !r.error.code.Termination?
  {
    var t := e.text;
    if At(t, p) != 0x65 && At(t, p) != 0x45 then ScanOk(p)
    else
      var q := if At(t, p + 1) == 0x2B || At(t, p + 1) == MINUS then p + 2 else p + 1;
      var r := DigitsEnd(t, q);
      if r == q then ScanBad(Error(NumberMissExponent, q))
      else if At(t, p + 1) != MINUS && e.literalTooBig(t[start..r]) then
        ScanBad(Error(NumberTooBig, start))
      else ScanOk(r)
  }

  // Leaves

  /** A leaf lexer either stops at `pos` with an event whose refusal is reported at
      `reported`, or fails. */
  datatype Leaf = Leaf(pos: nat, event: Event, reported: nat) | BadLeaf(error: Error)

  function Number(e: Env, p: nat): (r: Leaf)
    requires p <= |e.text|
    ensures r.Leaf? ==> p < r.pos <= |e.text| && IsScalar(r.event)
    ensures r.BadLeaf? ==> !r.error.code.Termination?
  {
    var w := WholePart(e, p);
    if w.BadWhole? then BadLeaf(w.error)
    else
      match Fraction(e.text, w.pos)
      case ScanBad(error) => BadLeaf(error)
      case ScanOk(q) =>
        match Exponent(e, p, q)
        case ScanBad(error) => BadLeaf(error)
        case ScanOk(r) =>
          var lexeme := e.text[p..r];
          Leaf(r,
               if e.flags.numbersAsStrings then RawNumber(lexeme)
               else if w.Whole? && w.fits && r == w.pos then IntegerEvent(At(e.text, p) == MINUS, w.value)
               else Double(lexeme),
               p)
  }

  /** `ParseNull`, `ParseTrue` and `ParseFalse`: the first letter has been peeked. */
  function Word(t: Text, p: nat, word: Text, event: Event): (r: Leaf)
    requires p < |t| && word != [] && t[p] == word[0]
    requires forall i :: 0 <= i < |word| ==> word[i] != 0
    ensures r.Leaf? ==> p < r.pos <= |t|
    ensures r.BadLeaf? ==> !r.error.code.Termination?
  {
    var n := Matched(t, p, word);
    if n == |word| then Leaf(p + n, event, p + n) else BadLeaf(Error(ValueInvalid, p + n))
  }

  function ParsedString(e: Env, p: nat, isKey: bool): (r: Leaf)
    ensures r.Leaf? ==> p < r.pos <= |e.text|
    ensures r.BadLeaf? ==> !r.error.code.Termination?
  {
    match StringFrom(e.text, p + 1, e.flags.validateEncoding, [])
    case Decoded(q, s) => Leaf(q, if isKey then Key(s) else String(s), q)
    case Undecodable(error) => BadLeaf(error)
  }

  /** `ParseValue` on anything but an object or an array. */
  function Scalar(e: Env, p: nat): (r: Leaf)
    requires p <= |e.text|
    ensures r.Leaf? ==> p < r.pos <= |e.text| && IsScalar(r.event)
    ensures r.BadLeaf? ==> !r.error.code.Termination?
  {
    var c := At(e.text, p);
    if c == NULL_NAME[0] then Word(e.text, p, NULL_NAME, Null)
    else if c == TRUE_NAME[0] then Word(e.text, p, TRUE_NAME, Bool(true))
    else if c == FALSE_NAME[0] then Word(e.text, p, FALSE_NAME, Bool(false))
    else if c == QUOTE then ParsedString(e, p, false)
    else Number(e, p)
  }
}
