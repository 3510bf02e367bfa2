/** What the error code and the offset of a failed parse say about the text. */
module Errors {
  import opened Bytes
  import opened Sax
  import opened Lexer
  import opened ParseState
  import opened Iterative
  import opened History
  import Agreement
  import Completeness
  import Grammar
  import Leaves
  import Numerals
  import Recursive
  import Utf8

  // Strings

  /** No piece of the grammar stands here. */
  ghost predicate NoItem(t: Text, q: nat, validate: bool) {
    forall item {:trigger Grammar.IsItem(item, validate)} ::
      Grammar.IsItem(item, validate) ==> !Occurs(t, q, Grammar.ItemText(item))
  }

  /** Four hexadecimal digits of a code unit between these bounds. */
  predicate HexBetween(t: Text, p: nat, lo: nat, hi: nat) {
    p + 4 <= |t| && Grammar.IsHex4(t[p..p + 4]) && lo <= Grammar.Hex(t[p..p + 4]) <= hi
  }

  predicate NoHex(t: Text, p: nat) {
    !(p + 4 <= |t| && Grammar.IsHex4(t[p..p + 4]))
  }

  predicate UnicodeAt(t: Text, p: nat) {
    At(t, p) == 0x5C && At(t, p + 1) == 0x75
  }

  predicate Utf8Here(t: Text, p: nat, n: nat) {
    p + n <= |t| && Utf8.IsUtf8Char(t[p..p + n])
  }

  /** What stands where a string cannot go on, by the code. */
  ghost predicate PieceTells(t: Text, q: nat, validate: bool, code: ErrorCode) {
    match code
    case StringMissQuotationMark => At(t, q) == 0
    case StringEscapeInvalid =>
      || 0 < At(t, q) < 0x20
      || (At(t, q) == 0x5C && At(t, q + 1) != 0x75 && Grammar.EscapeOf(At(t, q + 1)).None?)
    case StringUnicodeEscapeInvalidHex =>
      && UnicodeAt(t, q)
      && (NoHex(t, q + 2)
          || (HexBetween(t, q + 2, 0xD800, 0xDBFF) && UnicodeAt(t, q + 6) && NoHex(t, q + 8)))
    case StringUnicodeSurrogateInvalid =>
      && UnicodeAt(t, q) && HexBetween(t, q + 2, 0xD800, 0xDBFF)
      && (!UnicodeAt(t, q + 6) || HexBetween(t, q + 8, 0, 0xDBFF) || HexBetween(t, q + 8, 0xE000, 0xFFFF))
    case StringInvalidEncoding =>
      && validate && At(t, q) >= 0x80
      && forall n :: 1 <= n <= 4 ==> !Utf8Here(t, q, n)
    case _ => false
  }

  lemma HexIs(t: Text, p: nat)
    requires p <= |t|
    ensures match Hex4(t, p)
            case Some(v) => HexBetween(t, p, v, v) && v <= 0xFFFF
            case None => NoHex(t, p)
  {
    hide Grammar.IsHexDigit, Grammar.Hex, Hex4;
    if Hex4(t, p).Some? {
      Leaves.HexAt(t, p);
      Grammar.HexBound(t[p..p + 4]);
    } else if p + 4 <= |t| && Grammar.IsHex4(t[p..p + 4]) {
      Leaves.HexRead(t, p, t[p..p + 4]);
    }
  }

  lemma InsideOfText(t: Text, p: nat)
    requires At(t, p) != 0
    ensures p < |t|
  {
  }

  lemma UnicodeTells(t: Text, q: nat)
    requires UnicodeAt(t, q) && UnicodeEscape(t, q).BadPiece?
    ensures UnicodeEscape(t, q).error.offset == q && PieceTells(t, q, true, UnicodeEscape(t, q).error.code)
    ensures PieceTells(t, q, false, UnicodeEscape(t, q).error.code)
  {
    hide Hex4, HexBetween, NoHex;
    InsideOfText(t, q + 1);
    HexIs(t, q + 2);
    if Hex4(t, q + 2).Some? {
      var u := Hex4(t, q + 2).value;
      Wider(t, q + 2, u, u, 0xD800, 0xDBFF);
      if UnicodeAt(t, q + 6) {
        InsideOfText(t, q + 7);
        HexIs(t, q + 8);
        if Hex4(t, q + 8).Some? {
          var v := Hex4(t, q + 8).value;
          Wider(t, q + 8, v, v, 0, 0xDBFF);
          Wider(t, q + 8, v, v, 0xE000, 0xFFFF);
        }
      }
    }
  }

  lemma Wider(t: Text, p: nat, lo: nat, hi: nat, lo': nat, hi': nat)
    requires HexBetween(t, p, lo, hi)
    ensures lo' <= lo && hi <= hi' ==> HexBetween(t, p, lo', hi')
  {
  }

  /** A string stops exactly where no piece of the grammar and no quotation mark stands,
      and the code says what stands there instead. */
  lemma BadPieceTells(t: Text, q: nat, validate: bool)
    requires q <= |t|
    ensures var piece := NextPiece(t, q, validate);
            && (piece.BadPiece? <==> NoItem(t, q, validate) && At(t, q) != 0x22)
            && (piece.BadPiece? ==> piece.error.offset == q && PieceTells(t, q, validate, piece.error.code))
  {
    hide UnicodeEscape, Utf8.Valid, Utf8Here, Grammar.IsItem, Grammar.ItemText, Grammar.EscapeOf, Unescaped,
      Occurs, HexBetween, NoHex;
    var piece := NextPiece(t, q, validate);
    if item :| Grammar.IsItem(item, validate) && Occurs(t, q, Grammar.ItemText(item)) {
      Leaves.ItemRead(t, q, item, validate);
    }
    if piece.Chunk? {
      ItemStands(t, q, validate);
    }
    Leaves.EscapeTable(At(t, q + 1));
    Leaves.EscapeTable(LOWER_U);
    if piece.BadPiece? {
      if UnicodeAt(t, q) {
        UnicodeTells(t, q);
      } else if validate && At(t, q) >= 0x20 && At(t, q) != 0x5C {
        NoUtf8(t, q);
      }
    }
  }

  lemma ItemStands(t: Text, q: nat, validate: bool)
    requires q <= |t| && NextPiece(t, q, validate).Chunk?
    ensures !NoItem(t, q, validate) && At(t, q) != 0x22
  {
    hide NextPiece, Grammar.IsItem, Grammar.ItemText;
    var n := NextPiece(t, q, validate).taken;
    Leaves.ItemRecovered(t, q, validate);
    var item := Leaves.ItemAt(t, q, n);
    assert Occurs(t, q, Grammar.ItemText(item));
    Leaves.QuoteEnds(t, q, validate);
  }

  lemma NoUtf8(t: Text, q: nat)
    requires q < |t| && !Utf8.Valid(t, q)
    ensures t[q] >= 0x80
    ensures forall n :: 1 <= n <= 4 ==> !Utf8Here(t, q, n)
  {
    hide Utf8.Valid, Utf8.IsUtf8Char;
    Utf8.ValidByMasks(t, q);
    Utf8.ValidIsUtf8Char(t, q);
    forall n | 1 <= n <= 4 ensures !Utf8Here(t, q, n) {
      if Utf8Here(t, q, n) { LengthHere(t, q, n); }
    }
  }

  lemma LengthHere(t: Text, q: nat, n: nat)
    requires 1 <= n && Utf8Here(t, q, n)
    ensures n == Utf8.Taken(t[q])
  {
    Utf8.CharLength(t[q..q + n]);
  }

  /** Pieces of the grammar lead from `p` to the place that the error names. */
  ghost predicate StringTells(t: Text, p: nat, validate: bool, error: Error) {
    && PieceTells(t, error.offset, validate, error.code) && NoItem(t, error.offset, validate)
    && exists items :: && Grammar.AreItems(items, validate) && Occurs(t, p, Grammar.ItemsText(items))
                       && error.offset == p + |Grammar.ItemsText(items)|
  }

  lemma {:induction false} StringFails(t: Text, p: nat, validate: bool, out: Text)
    requires p <= |t| && StringFrom(t, p, validate, out).Undecodable?
    ensures StringTells(t, p, validate, StringFrom(t, p, validate, out).error)
    decreases |t| - p
  {
    hide NextPiece, PieceTells, NoItem, Grammar.IsItem, Grammar.ItemText;
    var piece := NextPiece(t, p, validate);
    BadPieceTells(t, p, validate);
    if piece.BadPiece? {
      assert Occurs(t, p, Grammar.ItemsText([]));
    } else {
      var error := StringFrom(t, p, validate, out).error;
      var n := piece.taken;
      StringFails(t, p + n, validate, out + piece.out);
      var rest :| && Grammar.AreItems(rest, validate) && Occurs(t, p + n, Grammar.ItemsText(rest))
                  && error.offset == p + n + |Grammar.ItemsText(rest)|;
      Leaves.ItemRecovered(t, p, validate);
      OneMoreItem(t, p, Leaves.ItemAt(t, p, n), rest, validate, n);
    }
  }

  lemma OneMoreItem(t: Text, p: nat, item: Grammar.Item, rest: seq<Grammar.Item>, validate: bool, n: nat)
    requires Grammar.IsItem(item, validate) && Grammar.AreItems(rest, validate) && p + n <= |t|
    requires Grammar.ItemText(item) == t[p..p + n] && Occurs(t, p + n, Grammar.ItemsText(rest))
    ensures var items := [item] + rest;
            && Grammar.AreItems(items, validate) && Occurs(t, p, Grammar.ItemsText(items))
            && |Grammar.ItemsText(items)| == n + |Grammar.ItemsText(rest)|
  {
    hide Grammar.IsItem, Grammar.ItemText;
    assert ([item] + rest)[1..] == rest;
    OccursConcat(t, p, Grammar.ItemText(item), Grammar.ItemsText(rest));
  }

  // Literal names and numbers

  /** The text follows the word up to the offset, and not there. */
  predicate WordTells(t: Text, p: nat, word: Text, error: Error) {
    && error.code.ValueInvalid? && p < error.offset <= |t| && error.offset - p < |word|
    && t[p..error.offset] == word[..error.offset - p] && At(t, error.offset) != word[error.offset - p]
  }

  lemma {:induction false} MatchedStops(t: Text, p: nat, word: Text)
    ensures var n := Matched(t, p, word);
            n < |word| ==> At(t, p + n) != word[n]
    decreases |word|
  {
    if word != [] && At(t, p) == word[0] {
      MatchedStops(t, p + 1, word[1..]);
    }
  }

  lemma WordFails(t: Text, p: nat, word: Text, event: Event)
    requires p < |t| && word != [] && t[p] == word[0] && forall i :: 0 <= i < |word| ==> word[i] != 0
    requires Word(t, p, word, event).BadLeaf?
    ensures WordTells(t, p, word, Word(t, p, word, event).error)
  {
    MatchedStops(t, p, word);
    Numerals.MatchedText(t, p, word);
  }

  predicate IsExponentLetter(c: Byte) {
    c == 0x65 || c == 0x45
  }

  /** What is missing in a number that begins at `p`, or that it is too big. */
  predicate NumberTells(e: Env, p: nat, error: Error) {
    var t, o := e.text, error.offset;
    match error.code
    case NumberTooBig => o == p
    case NumberMissFraction => p < o && At(t, o - 1) == 0x2E && !Grammar.Digit(At(t, o))
    case NumberMissExponent =>
      && p + 2 <= o && !Grammar.Digit(At(t, o))
      && (IsExponentLetter(At(t, o - 1))
          || (IsExponentLetter(At(t, o - 2)) && (At(t, o - 1) == 0x2B || At(t, o - 1) == 0x2D)))
    case ValueInvalid =>
      var q := if At(t, p) == 0x2D then p + 1 else p;
      && !Grammar.Digit(At(t, q)) && q <= o
      && (o > q ==> e.flags.nanAndInf && (At(t, q) == 0x4E || At(t, q) == 0x49))
    case _ => false
  }

  lemma NumberFails(e: Env, p: nat)
    requires p <= |e.text| && Number(e, p).BadLeaf?
    ensures NumberTells(e, p, Number(e, p).error)
  {
    hide DigitsEnd, Matched, Decimal, DigitsBetween, IntegerEvent, Fits64, NanOrInf;
    var t := e.text;
    var q := if At(t, p) == MINUS then p + 1 else p;
    var w := WholePart(e, p);
    SpecialFails(t, q);
    if !w.BadWhole? {
      var f := Fraction(t, w.pos);
      if f.ScanOk? { ExponentFails(e, p, f.pos); }
    }
  }

  lemma SpecialFails(t: Text, q: nat)
    ensures NanOrInf(t, q).ScanBad? ==>
              NanOrInf(t, q).error.code.ValueInvalid? && q <= NanOrInf(t, q).error.offset
  {
    hide Matched;
  }

  lemma ExponentFails(e: Env, p: nat, s: nat)
    requires p < s <= |e.text| && Exponent(e, p, s).ScanBad?
    ensures NumberTells(e, p, Exponent(e, p, s).error)
  {
  }

  /** What the error of a leaf that begins at `p` says. */
  ghost predicate LeafTells(e: Env, p: nat, error: Error) {
    p <= |e.text| &&
    match At(e.text, p)
    case 0x22 => StringTells(e.text, p + 1, e.flags.validateEncoding, error)
    case 0x6E => WordTells(e.text, p, [0x6E, 0x75, 0x6C, 0x6C], error)
    case 0x74 => WordTells(e.text, p, [0x74, 0x72, 0x75, 0x65], error)
    case 0x66 => WordTells(e.text, p, [0x66, 0x61, 0x6C, 0x73, 0x65], error)
    case _ => NumberTells(e, p, error)
  }

  lemma StringLeafFails(e: Env, p: nat, isKey: bool)
    requires p < |e.text| && e.text[p] == QUOTE && ParsedString(e, p, isKey).BadLeaf?
    ensures LeafTells(e, p, ParsedString(e, p, isKey).error)
  {
    hide StringFrom, StringTells;
    StringFails(e.text, p + 1, e.flags.validateEncoding, []);
  }

  lemma ScalarFails(e: Env, p: nat)
    requires p <= |e.text| && Scalar(e, p).BadLeaf?
    ensures LeafTells(e, p, Scalar(e, p).error)
  {
    hide Number, Word, ParsedString, WordTells, NumberTells, StringTells;
    var t, c := e.text, At(e.text, p);
    if c == NULL_NAME[0] {
      WordFails(t, p, NULL_NAME, Null);
    } else if c == TRUE_NAME[0] {
      WordFails(t, p, TRUE_NAME, Bool(true));
    } else if c == FALSE_NAME[0] {
      WordFails(t, p, FALSE_NAME, Bool(false));
    } else if c == QUOTE {
      StringLeafFails(e, p, false);
    } else {
      NumberFails(e, p);
    }
  }

  // White space

  /** A comment that begins at `c` goes on to `o`. */
  predicate Unclosed(t: Text, c: nat, o: nat) {
    && c + 2 <= o <= |t| && t[c] == 0x2F && t[c + 1] == 0x2A
    && forall i :: c + 2 <= i < o ==> t[i] != 0 && !(t[i] == 0x2A && At(t, i + 1) == 0x2F)
  }

  /** A comment that does not end, or that does not begin. */
  ghost predicate CommentTells(t: Text, o: nat) {
    || (At(t, o) == 0 && exists c :: Unclosed(t, c, o))
    || (0 < o && At(t, o - 1) == 0x2F && At(t, o) != 0x2A && At(t, o) != 0x2F)
  }

  lemma {:induction false} BlockFails(t: Text, c: nat, q: nat)
    requires Unclosed(t, c, q) && BlockEnd(t, q).SkipBad?
    ensures CommentTells(t, BlockEnd(t, q).offset)
    decreases |t| - q
  {
    if At(t, q) != 0 { BlockFails(t, c, q + 1); }
  }

  lemma {:induction false} SkipFails(t: Text, p: nat, comments: bool)
    requires p <= |t| && Skip(t, p, comments).SkipBad?
    ensures comments && CommentTells(t, Skip(t, p, comments).offset)
    decreases |t| - p
  {
    hide CommentTells, SkipWs;
    var q := SkipWs(t, p);
    if Comment(t, q + 1).SkipOk? {
      SkipFails(t, Comment(t, q + 1).pos, comments);
    } else {
      CommentFails(t, q);
    }
  }

  lemma CommentFails(t: Text, q: nat)
    requires q < |t| && t[q] == SLASH && Comment(t, q + 1).SkipBad?
    ensures CommentTells(t, Comment(t, q + 1).offset)
  {
    hide BlockEnd;
    if At(t, q + 1) == STAR {
      BlockFails(t, q, q + 2);
    }
  }

  // Refused events

  /** Where the refusal of an event is reported: at a bracket, behind a string or a
      literal name, at the beginning of a number. */
  predicate RefusedAt(t: Text, event: Event, o: nat) {
    match event
    case StartObject => At(t, o) == 0x7B
    case EndObject(_) => At(t, o) == 0x7D
    case StartArray => At(t, o) == 0x5B
    case EndArray(_) => At(t, o) == 0x5D
    case String(_) => 0 < o && At(t, o - 1) == 0x22
    case Key(_) => 0 < o && At(t, o - 1) == 0x22
    case Null => 4 <= o && Occurs(t, o - 4, [0x6E, 0x75, 0x6C, 0x6C])
    case Bool(b) =>
      if b then 4 <= o && Occurs(t, o - 4, [0x74, 0x72, 0x75, 0x65])
      else 5 <= o && Occurs(t, o - 5, [0x66, 0x61, 0x6C, 0x73, 0x65])
    case _ =>
      var c := At(t, o);
      Grammar.Digit(c) || c == 0x2D || c == 0x4E || c == 0x49
  }

  lemma {:induction false} StringEnds(t: Text, p: nat, validate: bool, out: Text)
    requires StringFrom(t, p, validate, out).Decoded?
    ensures At(t, StringFrom(t, p, validate, out).pos - 1) == QUOTE
    decreases |t| - p
  {
    hide NextPiece;
    var piece := NextPiece(t, p, validate);
    Leaves.QuoteEnds(t, p, validate);
    if piece.Chunk? { StringEnds(t, p + piece.taken, validate, out + piece.out); }
  }

  lemma WordReported(t: Text, p: nat, word: Text, event: Event)
    requires p < |t| && word != [] && t[p] == word[0] && forall i :: 0 <= i < |word| ==> word[i] != 0
    requires Word(t, p, word, event).Leaf?
    ensures var o := Word(t, p, word, event).reported;
            o == p + |word| && Occurs(t, p, word) && Word(t, p, word, event).event == event
  {
    Numerals.MatchedOccurs(t, p, word);
  }

  lemma NumberReported(e: Env, p: nat)
    requires p <= |e.text| && Number(e, p).Leaf?
    ensures RefusedAt(e.text, Number(e, p).event, Number(e, p).reported)
  {
    hide DigitsEnd, Matched, Decimal, DigitsBetween, Fraction, Exponent, NanOrInf, Fits64;
  }

  lemma LeafReported(e: Env, p: nat)
    requires p <= |e.text| && Scalar(e, p).Leaf?
    ensures RefusedAt(e.text, Scalar(e, p).event, Scalar(e, p).reported)
  {
    hide Number, Word, StringFrom, Occurs;
    var t, c := e.text, At(e.text, p);
    if c == NULL_NAME[0] {
      WordReported(t, p, NULL_NAME, Null);
    } else if c == TRUE_NAME[0] {
      WordReported(t, p, TRUE_NAME, Bool(true));
    } else if c == FALSE_NAME[0] {
      WordReported(t, p, FALSE_NAME, Bool(false));
    } else if c == QUOTE {
      StringEnds(t, p + 1, e.flags.validateEncoding, []);
    } else {
      NumberReported(e, p);
    }
  }

  // Structure

  /** The innermost open container is of this kind, and a name does or does not await
      its value there. */
  predicate InnermostIs(r: Replay, isObject: bool, named: bool) {
    && r.Replay? && r.open != []
    && var top := r.open[|r.open| - 1];
       top.isObject == isObject && top.named == named
  }

  predicate HasChildren(r: Replay) {
    r.Replay? && r.open != [] && r.open[|r.open| - 1].children > 0
  }

  /** What a failed parse tells: the code says what was expected after the events sent,
      and the byte at the offset is something else. */
  ghost predicate Tells(e: Env, s: State) {
    s.error.Some? &&
    var c, o := s.error.value.code, s.error.value.offset;
    var b, r := At(e.text, o), ReplayOf(s.events);
    match c
    case Termination =>
      s.events != [] && !e.handler(s.events) && RefusedAt(e.text, s.events[|s.events| - 1], o)
    case UnspecificSyntaxError => e.flags.comments && CommentTells(e.text, o)
    case DocumentEmpty => s.events == [] && Agreement.Punctuation(b)
    case DocumentRootNotSingular => r == Replay([], true) && b != 0
    case ObjectMissName =>
      InnermostIs(r, true, false) && b != 0x22 && (b == 0x7D ==> HasChildren(r) && !e.flags.trailingCommas)
    case ObjectMissColon => InnermostIs(r, true, true) && b != 0x3A
    case ObjectMissCommaOrCurlyBracket =>
      InnermostIs(r, true, false) && HasChildren(r) && b != 0x2C && b != 0x7D
    case ArrayMissCommaOrSquareBracket =>
      InnermostIs(r, false, false) && HasChildren(r) && b != 0x2C && b != 0x5D
    case ValueInvalid =>
      && TakesValue(r)
      && (|| (Agreement.Punctuation(b) && (b == 0x5D && InnermostIs(r, false, false) ==> HasChildren(r)))
          || exists p :: LeafTells(e, p, s.error.value))
    case NumberTooBig | NumberMissFraction | NumberMissExponent =>
      TakesValue(r) && exists p :: LeafTells(e, p, s.error.value)
    case _ =>
      && (TakesValue(r) || InnermostIs(r, true, false))
      && exists p :: At(e.text, p) == 0x22 && LeafTells(e, p, s.error.value)
  }

  lemma FreshReplay(events: seq<Event>)
    requires ReplayOf(events) == Replay([], false)
    ensures events == []
  {
  }

  lemma NothingOpen(r: Replay)
    requires r.Replay? && |r.open| == 0
    ensures r == Replay([], r.rootDone)
  {
  }

  /** The machine stops between two tokens. */
  lemma StopTells(e: Env, m: Machine)
    requires Running(e, m) && Tracks(m)
    requires if Peek(e, m.s) == 0 then !m.mode.Finish? else Predict(m.mode, Tokenize(Peek(e, m.s))).ErrorMode?
    ensures Tells(e, m.s.Fail(ErrorOf(m.mode), m.s.pos))
  {
    hide ReplayOf, LeafTells, FramesTrack;
    TracksReplay(m.mode, m.stack, ReplayOf(m.s.events));
    if m.mode.Start? {
      NothingOpen(ReplayOf(m.s.events));
      FreshReplay(m.s.events);
    } else if m.mode.Finish? {
      NothingOpen(ReplayOf(m.s.events));
    }
  }

  lemma SendTells(e: Env, s: State, pos: nat, event: Event, reported: nat)
    requires !Send(e, s, pos, event, reported).Ok() && RefusedAt(e.text, event, reported)
    ensures Tells(e, Send(e, s, pos, event, reported))
  {
    hide RefusedAt;
  }

  lemma BlankTells(e: Env, s: State)
    requires Within(e, s) && !Blank(e, s).Ok()
    ensures Tells(e, Blank(e, s))
  {
    hide CommentTells;
    assert Skip(e.text, s.pos, e.flags.comments).SkipBad?;
    SkipFails(e.text, s.pos, e.flags.comments);
  }

  lemma ScalarTells(e: Env, m: Machine)
    requires Running(e, m) && Tracks(m) && Agreement.AwaitsValue(m.mode) && !ScalarValue(e, m.s).Ok()
    ensures Tells(e, ScalarValue(e, m.s))
  {
    hide ReplayOf, LeafTells, Shaped, StackTracks, Scalar, Send, CommentTells;
    DoneTracks(m.mode, m.stack, ReplayOf(m.s.events));
    var leaf := Scalar(e, m.s.pos);
    if leaf.Leaf? {
      LeafReported(e, m.s.pos);
      if !Send(e, m.s, leaf.pos, leaf.event, leaf.reported).Ok() {
        SendTells(e, m.s, leaf.pos, leaf.event, leaf.reported);
      }
    } else {
      ScalarFails(e, m.s.pos);
      LeafCodes(e, m.s.pos, leaf.error);
    }
  }

  /** Which codes a leaf fails with. */
  lemma LeafCodes(e: Env, p: nat, error: Error)
    requires LeafTells(e, p, error)
    ensures match error.code
            case ValueInvalid | NumberTooBig | NumberMissFraction | NumberMissExponent => true
            case StringUnicodeEscapeInvalidHex | StringUnicodeSurrogateInvalid | StringEscapeInvalid
               | StringMissQuotationMark | StringInvalidEncoding => At(e.text, p) == 0x22
            case _ => false
    ensures At(e.text, p) == 0x22 ==> !error.code.ValueInvalid? && !error.code.NumberTooBig?
                                      && !error.code.NumberMissFraction? && !error.code.NumberMissExponent?
  {
  }

  lemma NameReported(e: Env, p: nat)
    requires ParsedString(e, p, true).Leaf?
    ensures RefusedAt(e.text, ParsedString(e, p, true).event, ParsedString(e, p, true).reported)
  {
    hide StringFrom;
    StringEnds(e.text, p + 1, e.flags.validateEncoding, []);
  }

  lemma NameTells(e: Env, m: Machine)
    requires Running(e, m) && Tracks(m) && (m.mode.ObjectInitial? || m.mode.MemberDelimiter?)
    requires Peek(e, m.s) == QUOTE && !Name(e, m.s).Ok()
    ensures Tells(e, Name(e, m.s))
  {
    hide ReplayOf, LeafTells, Shaped, FramesTrack, ParsedString, Send, CommentTells;
    ContainerStack(m.mode, m.stack);
    TracksReplay(m.mode, m.stack, ReplayOf(m.s.events));
    var leaf := ParsedString(e, m.s.pos, true);
    if leaf.Leaf? {
      NameReported(e, m.s.pos);
      SendTells(e, m.s, leaf.pos, leaf.event, leaf.reported);
    } else {
      StringLeafFails(e, m.s.pos, true);
      LeafCodes(e, m.s.pos, leaf.error);
    }
  }

  lemma ClosedTells(e: Env, m: Machine, isObject: bool)
    requires Running(e, m) && Tracks(m) && m.s.pos < |e.text| && m.stack != []
    requires if isObject then Peek(e, m.s) == RBRACE && InObject(m.mode) else Peek(e, m.s) == RBRACKET && InArray(m.mode)
    requires !m.mode.MemberKey? && !m.mode.KeyValueDelimiter?
    ensures !Closed(e, m, isObject).s.Ok() ==> Tells(e, Closed(e, m, isObject).s)
  {
    hide ReplayOf, LeafTells, Shaped, Send, CommentTells;
    var r := ReplayOf(m.s.events);
    TracksReplay(m.mode, m.stack, r);
    if e.flags.trailingCommas || (!m.mode.MemberDelimiter? && !m.mode.ElementDelimiter?) {
      var top := m.stack[|m.stack| - 1];
      var c := if m.mode.MemberValue? || m.mode.Element? then top.count + 1 else top.count;
      var event := if isObject then EndObject(c) else EndArray(c);
      if !Send(e, m.s, m.s.pos, event, m.s.pos).Ok() { SendTells(e, m.s, m.s.pos, event, m.s.pos); }
    }
  }

  lemma {:induction false} LoopTells(e: Env, m: Machine)
    requires Running(e, m) && Tracks(m) && !Loop(e, m).Ok()
    ensures Tells(e, Loop(e, m))
    decreases |e.text| - m.s.pos
  {
    hide Transit, Predict, Tokenize, Tells, Shaped, StackTracks, ReplayOf, Blank;
    if Peek(e, m.s) == 0 {
      StopTells(e, m);
    } else {
      TransitTracks(e, m);
      TransitTells(e, m);
      var n := Transit(e, m, Predict(m.mode, Tokenize(Peek(e, m.s))));
      if !n.mode.ErrorMode? && !(e.flags.stopWhenDone && n.mode.Finish?) {
        var s := Blank(e, n.s);
        if s.Ok() { LoopTells(e, n.(s := s)); } else { BlankTells(e, n.s); }
      }
    }
  }

  lemma TransitTells(e: Env, m: Machine)
    requires Running(e, m) && Tracks(m) && Peek(e, m.s) != 0
    ensures var n := Transit(e, m, Predict(m.mode, Tokenize(Peek(e, m.s))));
            n.mode.ErrorMode? ==> Tells(e, HandleError(m.mode, n.s))
  {
    hide Opened, Closed, Moved, Counted, ScalarValue, Name, Tracks, Tells;
    var dst := Predict(m.mode, Tokenize(Peek(e, m.s)));
    if dst.ErrorMode? {
      StopTells(e, m);
    } else if dst.ObjectInitial? || dst.ArrayInitial? {
      OpenedTells(e, m, dst);
    } else if dst.MemberKey? {
      MovedFails(e, m, dst, Name(e, m.s));
      if !Name(e, m.s).Ok() { NameTells(e, m); }
    } else if dst.MemberValue? || dst.Element? || dst.SingleValue? {
      var after := if dst.SingleValue? then Finish else dst;
      MovedFails(e, m, after, ScalarValue(e, m.s));
      if !ScalarValue(e, m.s).Ok() { ScalarTells(e, m); }
    } else if dst.ObjectFinish? || dst.ArrayFinish? {
      ClosedFails(e, m, dst.ObjectFinish?);
      ClosedTells(e, m, dst.ObjectFinish?);
    }
  }

  lemma OpenedTells(e: Env, m: Machine, dst: Mode)
    requires Running(e, m) && m.s.pos < |e.text| && !m.mode.Finish?
    requires if dst.ObjectInitial? then Peek(e, m.s) == LBRACE else dst.ArrayInitial? && Peek(e, m.s) == LBRACKET
    requires After(m.mode).Start? || After(m.mode).Element? || After(m.mode).MemberValue?
    ensures var n := Opened(e, m, dst);
            n.mode.ErrorMode? ==> !n.s.Ok() && Tells(e, n.s)
  {
    hide Send, Tells;
    var event := if dst.ObjectInitial? then StartObject else StartArray;
    if !Send(e, m.s, m.s.pos, event, m.s.pos).Ok() { SendTells(e, m.s, m.s.pos, event, m.s.pos); }
  }

  lemma MovedFails(e: Env, m: Machine, dst: Mode, s: State)
    requires Running(e, m) && Shaped(dst, m.stack) && Advanced(e, m.s, s) && !dst.ErrorMode?
    ensures var n := Moved(e, m, dst, s);
            n.s == s && (n.mode.ErrorMode? <==> !s.Ok())
  {
  }

  lemma ClosedFails(e: Env, m: Machine, isObject: bool)
    requires Running(e, m) && m.s.pos < |e.text| && m.stack != []
    ensures var n := Closed(e, m, isObject);
            n.mode.ErrorMode? ==> !n.s.Ok()
  {
    hide Send;
  }

  /** Whenever the iterative parser fails, code and offset tell why; and so they do when
      recursive descent fails, except on stray punctuation, which it takes for a value,
      and where the handler refuses an event. */
  lemma FailureTells(e: Env)
    ensures !Iterative.Parse(e).Ok() ==> Tells(e, Iterative.Parse(e))
    ensures var r := Recursive.Parse(e);
            !r.Ok() && !Agreement.StrayPunctuation(e) && !r.error.value.code.Termination? ==> Tells(e, r)
  {
    hide Loop, Recursive.Value, Blank, LeafTells, ReplayOf, CommentTells, TakesValue;
    var s := Blank(e, Recursive.START);
    Agreement.ParsersAgree(e);
    if s.Ok() {
      var m := Machine(Start, [], s);
      StartTracks(m);
      if !Loop(e, m).Ok() { LoopTells(e, m); }
    } else {
      BlankTells(e, Recursive.START);
    }
  }

  lemma StartTracks(m: Machine)
    requires m.mode.Start? && m.stack == [] && m.s.events == []
    ensures Tracks(m)
  {
  }
}
