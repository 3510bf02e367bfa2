/** `GenericReader` (reader.h) with its stream, its stack and its result, over one
    buffer that the in-situ flag lets it overwrite. */
module ReaderObject {
  import opened Bytes
  import opened Sax
  import opened Lexer
  import opened ParseState
  import Recursive
  import Iterative
  import Numerals
  import Overrun
  import Utf8

  /** What the type-unsafe `internal::Stack` of the reader holds. */
  datatype Cell = ModeCell(mode: Iterative.Mode) | CountCell(n: nat) | CharCell(c: Byte)

  function Chars(s: Text): (cells: seq<Cell>)
    ensures |cells| == |s|
  {
    seq(|s|, i requires 0 <= i < |s| => CharCell(s[i]))
  }

  function CharsOf(cells: seq<Cell>): Text {
    seq(|cells|, i requires 0 <= i < |cells| => if cells[i].CharCell? then cells[i].c else 0)
  }

  lemma CharsPopped(base: seq<Cell>, s: Text)
    ensures var cells := base + Chars(s + [0]);
            CharsOf(cells[|base|..|cells| - 1]) == s && cells[..|base|] == base
  {
  }

  lemma CharsSnoc(s: Text, c: Byte)
    ensures Chars(s + [c]) == Chars(s) + [CharCell(c)]
  {
  }

  /** Sent with a text, which in situ lies in the buffer. */
  predicate HasText(event: Event) {
    event.String? || event.Key? || event.RawNumber?
  }

  /** What lies there: no NUL is put behind a number, where it would erase the comma. */
  function Shown(event: Event): Text {
    match event
    case String(s) => s + [0]
    case Key(s) => s + [0]
    case RawNumber(s) => s
    case _ => []
  }

  /** An event sent in situ: where its text begins in the buffer. */
  datatype Given = Given(pos: nat, event: Event)

  function GivenEvents(given: seq<Given>): seq<Event> {
    seq(|given|, i requires 0 <= i < |given| => given[i].event)
  }

  /** The strings, names and raw numbers among the events. */
  function TextsOf(events: seq<Event>): seq<Event> {
    if events == [] then []
    else
      var last := events[|events| - 1];
      TextsOf(events[..|events| - 1]) + (if HasText(last) then [last] else [])
  }

  lemma TextsSnoc(events: seq<Event>, event: Event)
    ensures TextsOf(events + [event]) == TextsOf(events) + (if HasText(event) then [event] else [])
  {
    assert (events + [event])[..|events|] == events;
  }

  class Reader {
    /** `e.text` is the text that the buffer held at first. */
    const e: Env
    const buf: array<Byte>
    /** `kParseInsituFlag`: no specification function depends on it. */
    const insitu: bool
    var src: nat
    var dst: nat
    var stack: seq<Cell>
    var events: seq<Event>
    var result: Option<Error>
    ghost var given: seq<Given>
    /** The source has read or written behind the NUL that ends the text. */
    ghost var overrun: bool

    /** The buffer holds the text and its NUL; what follows is arbitrary. From the read
        cursor on, it still holds the text. */
    ghost predicate Whole()
      reads this, buf
    {
      && buf.Length >= |e.text| + 1
      && forall i :: src <= i <= |e.text| ==> buf[i] == At(e.text, i)
    }

    /** Nothing behind the NUL has been touched, unless the parse has failed on a
        sequence that leads there. */
    ghost predicate Valid()
      reads this, buf
    {
      Whole() && overrun == Overrun.Cut(e.text, result)
    }

    /** The buffer is long enough for a parse that ends with this error: behind the NUL
        it has two more bytes if a sequence leads there. */
    ghost predicate Safe(error: Option<Error>)
      reads this, buf
    {
      Overrun.Cut(e.text, error) ==> buf.Length >= |e.text| + 3
    }

    /** The state of the parse, as the specification functions see it. */
    ghost function St(): State
      reads this
    {
      State(src, events, result)
    }

    ghost predicate Ready()
      reads this, buf
    {
      Valid() && Within(e, St())
    }

    /** In situ, every text sent so far still stands in the buffer, in the part that the
        reader has left behind: strings and names with their NUL. */
    ghost predicate Held()
      reads this, buf
    {
      insitu ==>
        && GivenEvents(given) == TextsOf(events)
        && forall k :: 0 <= k < |given| ==> Placed(given[k])
    }

    ghost predicate Placed(g: Given)
      reads this, buf
    {
      Standing(g.pos, Shown(g.event))
    }

    ghost predicate Steady()
      reads this, buf
    {
      Ready() && Held()
    }

    /** Reading on past what has been read, and sending no text, keeps them. */
    twostate lemma StillHeld()
      requires old(Held()) && given == old(given) && TextsOf(events) == old(TextsOf(events))
      requires old(src) <= src && old(src) <= buf.Length && Before(old(src))
      ensures Held()
    {
      if insitu {
        forall k | 0 <= k < |given| ensures Placed(given[k]) {
          var g := given[k];
          assert old(Placed(g));
          var w := Shown(g.event);
          assert old(buf[g.pos..g.pos + |w|]) == w;
          assert forall i :: 0 <= i < |w| ==> old(buf[g.pos + i]) == w[i];
          assert buf[g.pos..g.pos + |w|] == w;
        }
      }
    }

    constructor (e: Env, buf: array<Byte>, insitu: bool)
      requires buf.Length >= |e.text| + 1
      requires forall i :: 0 <= i <= |e.text| ==> buf[i] == At(e.text, i)
      ensures Valid() && this.e == e && this.buf == buf && this.insitu == insitu
      ensures St() == Recursive.START && stack == [] && Held()
    {
      this.e := e;
      this.buf := buf;
      this.insitu := insitu;
      src, dst, stack, events, result := 0, 0, [], [], None;
      given, overrun := [], false;
    }

    // The stream

    method Peek() returns (c: Byte)
      requires Valid() && src <= |e.text|
      ensures c == At(e.text, src)
    {
      c := buf[src];
    }

    method Take() returns (c: Byte)
      requires Valid() && src <= |e.text|
      modifies this`src
      ensures Valid() && c == At(e.text, old(src)) && src == old(src) + 1
    {
      c := buf[src];
      src := src + 1;
    }

    /** `Take` inside a sequence that may lead behind the NUL. */
    method TakeTail() returns (c: Byte)
      requires Whole() && src < buf.Length
      modifies this`src, this`overrun
      ensures Whole() && src == old(src) + 1 && overrun == (old(overrun) || old(src) > |e.text|)
      ensures old(src) <= |e.text| ==> c == At(e.text, old(src))
    {
      c := buf[src];
      overrun := overrun || src > |e.text|;
      src := src + 1;
    }

    method Consume(expected: Byte) returns (taken: bool)
      requires Valid() && src <= |e.text| && expected != 0
      modifies this`src
      ensures Valid() && taken == (At(e.text, old(src)) == expected)
      ensures src == (if taken then old(src) + 1 else old(src)) <= |e.text|
    {
      taken := false;
      if buf[src] == expected {
        src := src + 1;
        taken := true;
      }
    }

    /** A chain of `Consume` calls joined by `&&`. */
    method ConsumeAll(word: Text) returns (all: bool)
      requires Valid() && src <= |e.text| && forall i :: 0 <= i < |word| ==> word[i] != 0
      modifies this`src
      ensures Valid() && src == old(src) + Matched(e.text, old(src), word) <= |e.text|
      ensures all == (Matched(e.text, old(src), word) == |word|)
    {
      var i := 0;
      all := true;
      assert word[0..] == word;
      while i < |word| && all
        invariant 0 <= i <= |word| && Valid() && src <= |e.text|
        invariant all ==> src == old(src) + i && Matched(e.text, old(src), word) == i + Matched(e.text, src, word[i..])
        invariant !all ==> src == old(src) + Matched(e.text, old(src), word) && Matched(e.text, old(src), word) < |word|
        decreases |word| - i, all
      {
        assert word[i..][1..] == word[i + 1..];
        all := Consume(word[i]);
        if all { i := i + 1; }
      }
    }

    /** The error macro: an error is assigned once only. */
    method SetParseError(code: ErrorCode, offset: nat)
      requires result.None?
      modifies this`result
      ensures St() == old(St()).Fail(code, offset)
    {
      result := Some(Error(code, offset));
    }

    /** Send an event; a refusal is an error at `reported`. */
    method Call(event: Event, reported: nat)
      requires result.None?
      modifies this`events, this`result
      ensures St() == Send(e, old(St()), src, event, reported)
    {
      events := events + [event];
      if !e.handler(events) {
        result := Some(Error(Termination, reported));
      }
    }

    // White space and comments

    method SkipWhitespace()
      requires Valid() && src <= |e.text|
      modifies this`src
      ensures Valid() && src == SkipWs(e.text, old(src)) <= |e.text|
    {
      var c := Peek();
      while IsWs(c)
        invariant Valid() && src <= |e.text| && c == At(e.text, src)
        invariant SkipWs(e.text, src) == SkipWs(e.text, old(src))
        decreases |e.text| - src
      {
        src := src + 1;
        c := Peek();
      }
    }

    /** The inside of a block comment; false at the end of the text. */
    method SkipBlockComment() returns (closed: bool)
      requires Valid() && src <= |e.text| && result.None?
      modifies this`src, this`result
      ensures Valid()
      ensures match BlockEnd(e.text, old(src))
              case SkipOk(p) => closed && src == p && result.None?
              case SkipBad(p) => !closed && result == Some(Error(UnspecificSyntaxError, p))
    {
      closed := false;
      while !closed
        invariant Valid() && src <= |e.text| && result.None?
        invariant if closed then BlockEnd(e.text, old(src)) == SkipOk(src)
                  else BlockEnd(e.text, src) == BlockEnd(e.text, old(src))
        decreases |e.text| - src, !closed
      {
        var c := Peek();
        if c == 0 {
          SetParseError(UnspecificSyntaxError, src);
          return;
        }
        src := src + 1;
        if c == STAR { closed := Consume(SLASH); }
      }
    }

    method SkipLineComment()
      requires Valid() && src <= |e.text|
      modifies this`src
      ensures Valid() && src == LineEnd(e.text, old(src)) <= |e.text|
    {
      var c := Peek();
      while c != 0
        invariant Valid() && src <= |e.text| && c == At(e.text, src)
        invariant LineEnd(e.text, src) == LineEnd(e.text, old(src))
        decreases |e.text| - src
      {
        src := src + 1;
        if c == NEWLINE { return; }
        c := Peek();
      }
    }

    /** A comment whose first slash has been consumed. */
    method SkipComment()
      requires Valid() && src <= |e.text| && result.None?
      modifies this`src, this`result
      ensures Valid()
      ensures match Comment(e.text, old(src))
              case SkipOk(p) => src == p && result.None?
              case SkipBad(p) => result == Some(Error(UnspecificSyntaxError, p))
    {
      var star := Consume(STAR);
      if star {
        var _ := SkipBlockComment();
      } else {
        var slash := Consume(SLASH);
        if slash {
          SkipLineComment();
        } else {
          SetParseError(UnspecificSyntaxError, src);
        }
      }
    }

    method SkipWhitespaceAndComments()
      requires Steady()
      modifies this`src, this`result
      ensures Valid() && Same(Blank(e, old(St()))) && (result.None? ==> Steady())
    {
      hide SkipWs, Comment, Overrun.Cut;
      SkipWhitespace();
      if e.flags.comments {
        var slash := Consume(SLASH);
        while slash
          invariant Valid() && src <= |e.text| && result.None?
          invariant Skip(e.text, old(src), true) ==
                    if !slash then SkipOk(src)
                    else match Comment(e.text, src)
                         case SkipOk(r) => Skip(e.text, r, true)
                         case SkipBad(o) => SkipBad(o)
          decreases |e.text| - src, slash
        {
          SkipComment();
          if result.Some? { return; }
          SkipWhitespace();
          slash := Consume(SLASH);
        }
      }
      StillHeld();
    }

    // Strings

    /** The decoded bytes so far: in the buffer between `head` and `dst`, behind which
        the reader stands; or on top of the stack `base`. */
    ghost predicate Sunk(head: nat, base: seq<Cell>, out: Text)
      reads this, buf
    {
      if insitu then
        stack == base && dst == head + |out| <= src && dst <= buf.Length && buf[head..dst] == out
      else stack == base + Chars(out)
    }

    /** Everything in front of `head` is as it was. */
    twostate predicate Before(head: nat)
      requires head <= buf.Length
      reads buf
    {
      forall i :: 0 <= i < head ==> buf[i] == old(buf[i])
    }

    method Put(c: Byte, ghost head: nat, ghost base: seq<Cell>, ghost out: Text)
      requires Whole() && head <= buf.Length && Sunk(head, base, out)
      requires insitu ==> dst < src && dst < buf.Length && (dst <= |e.text| || overrun)
      modifies this`dst, this`stack, this`overrun, buf
      ensures Whole() && Sunk(head, base, out + [c]) && Before(head) && overrun == old(overrun)
    {
      if insitu {
        buf[dst] := c;
        overrun := overrun || dst > |e.text|;
        dst := dst + 1;
      } else {
        CharsSnoc(out, c);
        stack := stack + [CharCell(c)];
      }
    }

    method PutAll(s: Text, ghost head: nat, ghost base: seq<Cell>, ghost out: Text)
      requires Valid() && head <= buf.Length && Sunk(head, base, out)
      requires insitu ==> dst + |s| <= src <= |e.text|
      modifies this`dst, this`stack, this`overrun, buf
      ensures Valid() && Sunk(head, base, out + s) && Before(head)
    {
      assert out + s[..0] == out;
      for i := 0 to |s|
        invariant Valid() && Sunk(head, base, out + s[..i]) && Before(head)
      {
        Put(s[i], head, base, out + s[..i]);
        assert out + s[..i] + [s[i]] == out + s[..i + 1];
      }
      assert s[..|s|] == s;
    }

    method ParseHex4(escapeOffset: nat) returns (codepoint: nat)
      requires Valid() && src <= |e.text| && result.None?
      modifies this`src, this`result
      ensures Valid() && codepoint <= 0xFFFF
      ensures match Hex4(e.text, old(src))
              case Some(v) => result.None? && codepoint == v && src == old(src) + 4 <= |e.text|
              case None => result == Some(Error(StringUnicodeEscapeInvalidHex, escapeOffset))
    {
      hide Overrun.Cut;
      codepoint := 0;
      for i := 0 to 4
        invariant Valid() && src == old(src) + i <= |e.text| && result.None? && codepoint < HexLimit(4 - i)
        invariant Hex4(e.text, old(src)) == HexFrom(e.text, src, 4 - i, codepoint)
      {
        var c := Peek();
        var digit := HexValue(c);
        if digit.None? {
          SetParseError(StringUnicodeEscapeInvalidHex, escapeOffset);
          return 0;
        }
        codepoint := codepoint * 16 + digit.value;
        src := src + 1;
      }
    }

    /** A `\u` escape whose first six bytes begin at `start`; the reader stands behind
        the `u`. Gives the bytes that the escape stands for. */
    method ParseUnicode(ghost start: nat) returns (s: Text)
      requires Valid() && src == start + 2 <= |e.text| && result.None?
      modifies this`src, this`result
      ensures Valid()
      ensures match UnicodeEscape(e.text, start)
              case Chunk(n, out) => result.None? && src == start + n <= |e.text| && s == out
              case BadPiece(error) => result == Some(error)
              case Quote => false
    {
      hide Hex4, HexFrom, HexLimit, Matched, Utf8.Encode;
      s := [];
      var escapeOffset := src - 2;
      var codepoint := ParseHex4(escapeOffset);
      if result.Some? { return; }
      if 0xD800 <= codepoint <= 0xDBFF {
        var pair := ConsumeAll([BACKSLASH, LOWER_U]);
        MatchedPair(e.text, start + 6);
        if !pair {
          SetParseError(StringUnicodeSurrogateInvalid, escapeOffset);
          return;
        }
        var codepoint2 := ParseHex4(escapeOffset);
        if result.Some? { return; }
        if codepoint2 < 0xDC00 || codepoint2 > 0xDFFF {
          SetParseError(StringUnicodeSurrogateInvalid, escapeOffset);
          return;
        }
        codepoint := (codepoint - 0xD800) * 0x400 + (codepoint2 - 0xDC00) + 0x10000;
      }
      s := Utf8.Encode(codepoint);
    }

    /** `COPY()`: put the byte that is taken. */
    method Copy(ghost head: nat, ghost base: seq<Cell>, ghost out: Text) returns (c: Byte)
      requires Whole() && src < buf.Length && head <= buf.Length && Sunk(head, base, out)
      modifies this`src, this`dst, this`stack, this`overrun, buf
      ensures Whole() && Before(head) && Sunk(head, base, out + [c])
      ensures src == old(src) + 1 && overrun == (old(overrun) || old(src) > |e.text|)
      ensures old(src) <= |e.text| ==> c == At(e.text, old(src))
    {
      c := TakeTail();
      Put(c, head, base, out);
    }

    /** Copy the bytes behind the lead byte at `p`, with a test for each. */
    method CopyTails(m: seq<bv8>, ghost p: nat, ghost head: nat, ghost base: seq<Cell>, ghost out: Text)
        returns (ok: bool)
      requires Whole() && !overrun && p < |e.text| && src == p + 1 && |m| <= 3
      requires src + |m| > |e.text| + 1 ==> buf.Length >= |e.text| + 3
      requires head <= buf.Length && Sunk(head, base, out + e.text[p..src])
      modifies this`src, this`dst, this`stack, this`overrun, buf
      ensures Whole() && Before(head) && src == p + 1 + |m| && overrun == (src > |e.text| + 1)
      ensures ok == forall j :: 0 <= j < |m| ==> Utf8.Trans(At(e.text, p + 1 + j), m[j])
      ensures ok ==> src <= |e.text| && Sunk(head, base, out + e.text[p..src])
    {
      hide Utf8.Trans, Sunk;
      ghost var copied := e.text[p..src];
      ok := true;
      for k := 0 to |m|
        invariant Whole() && Before(head) && src == p + 1 + k && overrun == (src > |e.text| + 1)
        invariant Sunk(head, base, out + copied) && (src <= |e.text| ==> copied == e.text[p..src])
        invariant ok == forall j :: 0 <= j < k ==> Utf8.Trans(At(e.text, p + 1 + j), m[j])
        invariant src > |e.text| ==> !ok
      {
        Utf8.NulNoTail(m[k]);
        var c := Copy(head, base, out + copied);
        assert out + copied + [c] == out + (copied + [c]);
        if src <= |e.text| { assert e.text[p..src] == e.text[p..src - 1] + [c]; }
        copied := copied + [c];
        ok := ok && Utf8.Trans(c, m[k]);
      }
    }

    /** `Transcoder::Validate`: take a UTF-8 sequence byte by byte and copy it. It goes
        on after a test has failed, and so leads behind the NUL exactly when the lead
        byte announces more bytes than there are. */
    method ValidateInto(ghost head: nat, ghost base: seq<Cell>, ghost out: Text) returns (ok: bool)
      requires Ready() && e.flags.validateEncoding && src < |e.text|
      requires Utf8.CutShort(e.text, src) ==> buf.Length >= |e.text| + 3
      requires head <= buf.Length && Sunk(head, base, out)
      modifies this`src, this`dst, this`stack, this`overrun, buf
      ensures Whole() && Before(head)
      ensures ok == Utf8.Valid(e.text, old(src))
      ensures src == old(src) + Utf8.Taken(e.text[old(src)]) && overrun == Utf8.CutShort(e.text, old(src))
      ensures ok ==> src <= |e.text| && Sunk(head, base, out + e.text[old(src)..src])
    {
      hide Utf8.Valid, Utf8.Masks, Utf8.Taken, Utf8.Trans, Utf8.IsUtf8Char, Sunk, Overrun.Cut;
      ghost var p := src;
      var lead := Copy(head, base, out);
      assert e.text[p..src] == [lead];
      Utf8.ValidByMasks(e.text, p);
      var masks := Utf8.Masks(lead);
      ok := lead < 0x80;
      if lead >= 0x80 && masks.Some? {
        ok := CopyTails(masks.value, p, head, base, out);
      }
    }

    /** One turn of the loop of `ParseStringToStream`. True at the closing quotation
        mark, behind which the NUL has been put. */
    method ParsePiece(ghost head: nat, ghost base: seq<Cell>, ghost out: Text) returns (closed: bool)
      requires Ready() && head <= buf.Length && Sunk(head, base, out)
      requires var piece := NextPiece(e.text, src, e.flags.validateEncoding);
               piece.BadPiece? ==> Safe(Some(piece.error))
      modifies this`src, this`dst, this`stack, this`result, this`overrun, buf
      ensures Valid() && Before(head)
      ensures match NextPiece(e.text, old(src), e.flags.validateEncoding)
              case Quote => closed && result.None? && src == old(src) + 1 <= |e.text| && Sunk(head, base, out + [0])
              case Chunk(n, s) =>
                !closed && result.None? && src == old(src) + n <= |e.text| && Sunk(head, base, out + s)
              case BadPiece(error) => !closed && result == Some(error)
    {
      hide UnicodeEscape, Utf8.Valid, Utf8.Taken, Utf8.IsUtf8Char, Overrun.Cut;
      closed := false;
      ghost var start := src;
      var c := Peek();
      if c == BACKSLASH {
        var escapeOffset := src;
        src := src + 1;
        var letter := Peek();
        if Unescaped(letter) != 0 {
          src := src + 1;
          Put(Unescaped(letter), head, base, out);
        } else if letter == LOWER_U {
          src := src + 1;
          var s := ParseUnicode(start);
          if result.Some? { return; }
          PutAll(s, head, base, out);
        } else {
          SetParseError(StringEscapeInvalid, escapeOffset);
        }
      } else if c == QUOTE {
        src := src + 1;
        Put(0, head, base, out);
        closed := true;
      } else if c < 0x20 {
        SetParseError(if c == 0 then StringMissQuotationMark else StringEscapeInvalid, src);
      } else {
        ParseRaw(head, base, out);
      }
    }

    /** A byte, or a validated sequence, that stands for itself. */
    method ParseRaw(ghost head: nat, ghost base: seq<Cell>, ghost out: Text)
      requires Ready() && head <= buf.Length && Sunk(head, base, out)
      requires var c := At(e.text, src); c >= 0x20 && c != QUOTE && c != BACKSLASH
      requires var piece := NextPiece(e.text, src, e.flags.validateEncoding);
               piece.BadPiece? ==> Safe(Some(piece.error))
      modifies this`src, this`dst, this`stack, this`result, this`overrun, buf
      ensures Valid() && Before(head)
      ensures match NextPiece(e.text, old(src), e.flags.validateEncoding)
              case Quote => false
              case Chunk(n, s) => result.None? && src == old(src) + n <= |e.text| && Sunk(head, base, out + s)
              case BadPiece(error) => result == Some(error)
    {
      hide Utf8.Valid, Utf8.Taken, Utf8.IsUtf8Char, Utf8.CutShort;
      var offset := src;
      if e.flags.validateEncoding {
        if Utf8.CutShort(e.text, src) { Overrun.CutInvalid(e.text, src); }
        var ok := ValidateInto(head, base, out);
        if !ok { SetParseError(StringInvalidEncoding, offset); }
      } else {
        var u := Take();
        Put(u, head, base, out);
      }
    }

    /** The decoded string, with its NUL, ends up between `head` and `dst`, or on top
        of the stack; the write cursor never passes the read cursor. */
    method ParseStringToStream(ghost head: nat, ghost base: seq<Cell>) returns (ghost out: Text)
      requires Ready() && head == src && Sunk(head, base, [])
      requires var decoding := StringFrom(e.text, src, e.flags.validateEncoding, []);
               decoding.Undecodable? ==> Safe(Some(decoding.error))
      modifies this`src, this`dst, this`stack, this`result, this`overrun, buf
      ensures Valid() && Before(head)
      ensures match StringFrom(e.text, old(src), e.flags.validateEncoding, [])
              case Decoded(q, s) => result.None? && src == q <= |e.text| && out == s && Sunk(head, base, s + [0])
              case Undecodable(error) => result == Some(error)
    {
      hide NextPiece, Overrun.Cut;
      out := [];
      var closed := false;
      while !closed
        invariant Valid() && Before(head) && src <= |e.text| && result.None?
        invariant if closed then
                    StringFrom(e.text, old(src), e.flags.validateEncoding, []) == Decoding.Decoded(src, out)
                    && Sunk(head, base, out + [0])
                  else
                    StringFrom(e.text, old(src), e.flags.validateEncoding, [])
                    == StringFrom(e.text, src, e.flags.validateEncoding, out)
                    && Sunk(head, base, out)
        decreases |e.text| - src, !closed
      {
        ghost var piece := NextPiece(e.text, src, e.flags.validateEncoding);
        closed := ParsePiece(head, base, out);
        if result.Some? { return; }
        if piece.Chunk? { out := out + piece.out; }
      }
    }

    /** The same bytes go to the handler whether they were decoded in the buffer or on
        the stack. Nothing in front of the opening quotation mark is touched. */
    method ParseString(isKey: bool)
      requires Steady() && At(e.text, src) == QUOTE
      requires Safe(SendLeaf(e, St(), ParsedString(e, src, isKey)).error)
      modifies this, buf
      ensures Valid() && Before(old(src) + 1)
      ensures Same(SendLeaf(e, old(St()), ParsedString(e, old(src), isKey)))
      ensures result.None? ==> Steady() && stack == old(stack)
    {
      hide StringFrom, TextsOf, Held, Sunk, Standing, Overrun.Cut;
      src := src + 1;
      StillHeld();
      var head := src;
      ghost var base := stack;
      if insitu { dst := src; }
      var size := |stack|;
      NothingSunk(head);
      ghost var out := ParseStringToStream(head, base);
      if result.Some? { return; }
      StillHeld();
      SendString(isKey, head, size, base, out);
    }

    /** Send the string that has been decoded. */
    method SendString(isKey: bool, head: nat, size: nat, ghost base: seq<Cell>, ghost out: Text)
      requires Steady() && Sunk(head, base, out + [0]) && size == |base|
      modifies this`stack, this`events, this`result, this`given
      ensures Valid() && stack == base && Held()
      ensures St() == Send(e, old(St()), src, if isKey then Key(out) else String(out), src)
    {
      hide Held, Sunk, Standing, Overrun.Cut;
      var str := TakeDecoded(head, size, base, out);
      StillHeld();
      CallText(if isKey then Key(str) else String(str), head, src);
    }

    /** These bytes stand at `pos`, where the reader has been. */
    ghost predicate Standing(pos: nat, w: Text)
      reads this, buf
    {
      pos + |w| <= src && pos + |w| <= buf.Length && buf[pos..pos + |w|] == w
    }

    lemma NothingSunk(head: nat)
      requires Valid() && head == src <= |e.text| && (insitu ==> dst == src)
      ensures Sunk(head, stack, [])
    {
      assert Chars([]) == [] && stack + [] == stack;
    }

    /** `PutEnd`, or `Pop`: the decoded string without its NUL. */
    method TakeDecoded(head: nat, size: nat, ghost base: seq<Cell>, ghost out: Text) returns (str: Text)
      requires Valid() && src <= |e.text| && Sunk(head, base, out + [0]) && size == |base|
      modifies this`stack
      ensures str == out && stack == base && (insitu ==> Standing(head, out + [0]))
    {
      if insitu {
        var length := dst - head - 1;
        str := buf[head..head + length];
        assert str == buf[head..dst][..length] == out;
      } else {
        // `Length() - 1` characters; `Pop` takes the NUL with them
        str := CharsOf(stack[size..|stack| - 1]);
        stack := stack[..size];
        CharsPopped(base, out);
      }
    }

    /** Send any other event. */
    method CallPlain(event: Event, reported: nat)
      requires Steady() && !HasText(event)
      modifies this`events, this`result
      ensures Valid() && St() == Send(e, old(St()), src, event, reported) && Held()
    {
      hide TextsOf;
      TextsSnoc(events, event);
      Call(event, reported);
      StillHeld();
    }

    /** Send an event whose text stands at `head`, when it is in situ. */
    method CallText(event: Event, ghost head: nat, reported: nat)
      requires Steady() && HasText(event)
      requires insitu ==> Standing(head, Shown(event))
      modifies this`events, this`result, this`given
      ensures Valid() && St() == Send(e, old(St()), src, event, reported) && Held()
    {
      hide TextsOf, Shown;
      TextsSnoc(events, event);
      ghost var g := Given(head, event);
      assert GivenEvents(given + [g]) == GivenEvents(given) + [event];
      ghost var before := given;
      Call(event, reported);
      given := given + [g];
      if insitu {
        assert forall k :: 0 <= k < |before| ==> old(Placed(before[k]));
      }
    }

    // Literal names and numbers

    method ParseWord(word: Text, event: Event)
      requires Steady() && !HasText(event) && word != [] && At(e.text, src) == word[0]
      requires forall i :: 0 <= i < |word| ==> word[i] != 0
      modifies this`src, this`events, this`result
      ensures Valid()
      ensures Same(SendLeaf(e, old(St()), Word(e.text, old(src), word, event)))
      ensures result.None? ==> Steady()
    {
      hide Matched, TextsOf;
      ghost var p := src;
      src := src + 1;
      var all := ConsumeAll(word[1..]);
      MatchedFirst(e.text, p, word);
      StillHeld();
      if all {
        CallPlain(event, src);
      } else {
        SetParseError(ValueInvalid, src);
      }
    }

    /** The specification's state, but for where a failed parse leaves the stream. */
    ghost predicate Same(s: State)
      reads this
    {
      result == s.error && events == s.events && (s.Ok() ==> src == s.pos)
    }

    /** The four accumulating loops of `ParseNumber`, for a value that must not exceed
        `limit`: 2^31, 2^32 - 1, 2^63 or 2^64 - 1. The value stays within the limit at
        every turn, so a machine integer of that width holds it. */
    method Accumulate(limit: nat, i: nat, ghost p: nat) returns (j: nat, full: bool)
      requires Valid() && p < src <= |e.text| && DigitsFrom(p, src) && i == Decimal(e.text[p..src]) <= limit
      modifies this`src
      ensures Valid() && old(src) <= src <= |e.text| && DigitsFrom(p, src) && j == Decimal(e.text[p..src]) <= limit
      ensures full <==> IsDigit(At(e.text, src))
      ensures full ==> j * 10 + (At(e.text, src) - 0x30) > limit
    {
      j, full := i, false;
      var c := Peek();
      while IsDigit(c)
        invariant Valid() && old(src) <= src <= |e.text| && c == At(e.text, src)
        invariant DigitsFrom(p, src) && j == Decimal(e.text[p..src]) <= limit
        decreases |e.text| - src
      {
        if j >= limit / 10 {
          if j != limit / 10 || c - 0x30 > limit % 10 {
            full := true;
            return;
          }
        }
        DecimalSnoc(e.text, p, src);
        j := j * 10 + (c - 0x30);
        src := src + 1;
        c := Peek();
      }
    }

    ghost predicate DigitsFrom(p: nat, q: nat)
      requires p <= q <= |e.text|
    {
      AllDigits(e.text[p..q])
    }

    method SkipDigits()
      requires Valid() && src <= |e.text|
      modifies this`src
      ensures Valid() && src == DigitsEnd(e.text, old(src)) <= |e.text|
    {
      var c := Peek();
      while IsDigit(c)
        invariant Valid() && src <= |e.text| && c == At(e.text, src)
        invariant DigitsEnd(e.text, src) == DigitsEnd(e.text, old(src))
        decreases |e.text| - src
      {
        src := src + 1;
        c := Peek();
      }
    }

    /** The integer part: its value when 64 bits hold it, and whether 32 bits do. */
    method ParseInteger(minus: bool) returns (value: nat, use64bit: bool, useDouble: bool)
      requires Valid() && src <= |e.text| && IsDigit(At(e.text, src))
      modifies this`src
      ensures Valid() && old(src) < src == IntegerEnd(e.text, old(src)) <= |e.text| && DigitsFrom(old(src), src)
      ensures var v := Decimal(e.text[old(src)..src]);
              && useDouble == !Fits64(minus, v)
              && (!useDouble ==> value == v && use64bit == (v > if minus then MAX_INT32 + 1 else MAX_UINT32))
    {
      hide Decimal, DigitsEnd;
      ghost var p := src;
      use64bit, useDouble := false, false;
      var c := Take();
      value := c - 0x30;
      OneDigit(e.text, p);
      if c == 0x30 { return; }
      value, use64bit := Accumulate(if minus then MAX_INT32 + 1 else MAX_UINT32, value, p);
      if use64bit {
        TooMuch(e.text, p, src);
        value, useDouble := Accumulate(if minus then MAX_INT64 + 1 else MAX_UINT64, value, p);
        if useDouble {
          TooMuch(e.text, p, src);
          SkipDigits();
        }
      }
      EndOfDigits(e.text, p, src);
    }

    method ParseNanOrInf()
      requires Valid() && src <= |e.text| && result.None?
      modifies this`src, this`result
      ensures Valid()
      ensures match NanOrInf(e.text, old(src))
              case ScanOk(q) => result.None? && src == q <= |e.text|
              case ScanBad(error) => result == Some(error)
    {
      hide Matched, Overrun.Cut;
      MatchedFirst(e.text, src, NAN_NAME);
      var nan := ConsumeAll(NAN_NAME);
      if !nan {
        var inf := ConsumeAll(INF_NAME);
        if inf {
          var c := Peek();
          if c == LOWER_I {
            var inity := ConsumeAll(INITY_NAME);
            if !inity { SetParseError(ValueInvalid, src); }
          }
        } else {
          SetParseError(ValueInvalid, src);
        }
      }
    }

    method ParseFraction()
      requires Valid() && src <= |e.text| && result.None?
      modifies this`src, this`result
      ensures Valid()
      ensures match Fraction(e.text, old(src))
              case ScanOk(q) => result.None? && src == q <= |e.text|
              case ScanBad(error) => result == Some(error)
    {
      var dot := Consume(DOT);
      if dot {
        var c := Peek();
        if IsDigit(c) {
          SkipDigits();
        } else {
          SetParseError(NumberMissFraction, src);
        }
      }
    }

    /** The bytes of a literal that began at `start`, which the buffer still holds. */
    method Lexeme(start: nat) returns (s: Text)
      requires Valid() && start <= src <= |e.text|
      requires forall i :: start <= i < src ==> buf[i] == e.text[i]
      ensures s == e.text[start..src] && Standing(start, s)
    {
      s := buf[start..src];
    }

    method ParseSign() returns (minus: bool)
      requires Valid() && src <= |e.text|
      modifies this`src
      ensures Valid() && minus == (At(e.text, old(src)) == MINUS)
      ensures src == (if minus || At(e.text, old(src)) == 0x2B then old(src) + 1 else old(src)) <= |e.text|
    {
      minus := false;
      var plus := Consume(0x2B);
      if !plus { minus := Consume(MINUS); }
    }

    method ParseExponent(start: nat)
      requires Valid() && start <= src <= |e.text| && result.None?
      requires forall i :: start <= i < src ==> buf[i] == e.text[i]
      modifies this`src, this`result
      ensures Valid()
      ensures match Exponent(e, start, old(src))
              case ScanOk(q) => result.None? && src == q <= |e.text|
              case ScanBad(error) => result == Some(error)
    {
      hide Exponent, Overrun.Cut;
      NoExponent(e, start, src);
      var c := Peek();
      if c == 0x65 || c == 0x45 {
        src := src + 1;
        ParsePower(start);
      }
    }

    /** What follows the letter of an exponent. */
    method ParsePower(start: nat)
      requires Valid() && start < src <= |e.text| && result.None?
      requires At(e.text, src - 1) == 0x65 || At(e.text, src - 1) == 0x45
      requires forall i :: start <= i < src ==> buf[i] == e.text[i]
      modifies this`src, this`result
      ensures Valid()
      ensures match Exponent(e, start, old(src) - 1)
              case ScanOk(q) => result.None? && src == q <= |e.text|
              case ScanBad(error) => result == Some(error)
    {
      hide DigitsEnd, IsDigit, Standing, Overrun.Cut;
      var minus := ParseSign();
      var c := Peek();
      SkipDigits();
      if IsDigit(c) {
        var lexeme := Lexeme(start);
        if !minus && e.literalTooBig(lexeme) {
          SetParseError(NumberTooBig, start);
        }
      } else {
        SetParseError(NumberMissExponent, src);
      }
    }

    /** `ParseNumber` up to the fraction. `value` is what the literal's sign applies to,
        and is exact unless `useDouble` is set. */
    method ParseWhole(minus: bool) returns (value: nat, use64bit: bool, useDouble: bool)
      requires Valid() && result.None? && src <= |e.text| && (minus ==> 0 < src)
      requires minus == (At(e.text, if minus then src - 1 else src) == MINUS)
      requires forall i :: src - (if minus then 1 else 0) <= i < src ==> buf[i] == e.text[i]
      modifies this`src, this`result
      ensures Valid()
      ensures var start := if minus then old(src) - 1 else old(src);
              match WholePart(e, start)
              case Whole(q, fits, v) =>
                && result.None? && src == q <= |e.text| && useDouble == !fits
                && (fits ==> value == v && Fits64(minus, v)
                             && use64bit == (v > if minus then MAX_INT32 + 1 else MAX_UINT32))
              case NotFinite(q) => result.None? && src == q <= |e.text| && useDouble
              case BadWhole(error) => result == Some(error)
    {
      hide NanOrInf, IntegerEnd, Decimal, DigitsFrom;
      value, use64bit, useDouble := 0, false, false;
      var startOffset, intStart := if minus then src - 1 else src, src;
      var c := Peek();
      if IsDigit(c) {
        value, use64bit, useDouble := ParseInteger(minus);
        var digits := Lexeme(intStart);
        if useDouble && e.integerTooBig(minus, digits) {
          SetParseError(NumberTooBig, startOffset);
        }
      } else if e.flags.nanAndInf && (c == UPPER_I || c == UPPER_N) {
        useDouble := true;
        ParseNanOrInf();
      } else {
        SetParseError(ValueInvalid, src);
      }
    }

    method ParseNumber()
      requires Steady()
      modifies this`src, this`events, this`result, this`given
      ensures Valid()
      ensures Same(SendLeaf(e, old(St()), Number(e, old(src))))
      ensures result.None? ==> Steady()
    {
      hide TextsOf, Number, Standing, Held, Overrun.Cut;
      var startOffset := src;
      var event := ScanNumber();
      if result.Some? { return; }
      StillHeld();
      CallNumber(event, startOffset);
    }

    /** `ParseNumber` up to the call of the handler. */
    method ScanNumber() returns (event: Event)
      requires Ready()
      modifies this`src, this`result
      ensures Valid()
      ensures match Number(e, old(src))
              case Leaf(q, sent, reported) =>
                && result.None? && src == q <= |e.text| && event == sent && reported == old(src)
                && (HasText(event) ==> Standing(old(src), Shown(event)))
              case BadLeaf(error) => result == Some(error)
    {
      hide Fraction, Exponent, WholePart, Decimal, Standing, IntegerEvent, Overrun.Cut;
      var startOffset := src;
      var minus := Consume(MINUS);
      var value, use64bit, useDouble := ParseWhole(minus);
      if result.Some? { return Null; }
      var intEnd := src;
      ParseFraction();
      if result.Some? { return Null; }
      ParseExponent(startOffset);
      if result.Some? { return Null; }
      var lexeme := Lexeme(startOffset);
      event := NumberEvent(lexeme, useDouble || src > intEnd, minus, value, use64bit);
    }

    /** The call of the handler by the type of the number. */
    method NumberEvent(lexeme: Text, useDouble: bool, minus: bool, value: nat, use64bit: bool) returns (event: Event)
      requires !useDouble ==>
                 Fits64(minus, value) && use64bit == (value > if minus then MAX_INT32 + 1 else MAX_UINT32)
      ensures event == if e.flags.numbersAsStrings then RawNumber(lexeme)
                       else if useDouble then Double(lexeme)
                       else IntegerEvent(minus, value)
      ensures HasText(event) ==> event == RawNumber(lexeme)
    {
      event :=
        if e.flags.numbersAsStrings then RawNumber(lexeme)
        else if useDouble then Double(lexeme)
        else if minus then if use64bit then Int64(-(value as int)) else Int(-(value as int))
        else if use64bit then Uint64(value) else Uint(value);
    }

    method CallNumber(event: Event, start: nat)
      requires Steady() && (HasText(event) ==> insitu ==> Standing(start, Shown(event)))
      modifies this`events, this`result, this`given
      ensures Valid() && St() == Send(e, old(St()), src, event, start) && Held()
    {
      hide Steady, Held;
      if HasText(event) {
        CallText(event, start, start);
      } else {
        CallPlain(event, start);
      }
    }

    // Recursive descent

    method ParseValue()
      requires Steady() && Safe(Recursive.Value(e, St()).error)
      modifies this, buf
      ensures Valid() && Before(old(src)) && Same(Recursive.Value(e, old(St())))
      ensures result.None? ==> Steady() && stack == old(stack)
      decreases |e.text| - src, 2
    {
      hide Held, Word, Number, ParsedString, Recursive.Object, Recursive.Array;
      var c := Peek();
      match c
      case 0x6E => ParseWord(NULL_NAME, Null);
      case 0x74 => ParseWord(TRUE_NAME, Bool(true));
      case 0x66 => ParseWord(FALSE_NAME, Bool(false));
      case 0x22 => ParseString(false);
      case 0x7B => ParseObject();
      case 0x5B => ParseArray();
      case _ => ParseNumber();
    }

    method TakeToken()
      requires Steady() && src < |e.text|
      modifies this`src
      ensures Steady() && src == old(src) + 1
    {
      var _ := Take();
      StillHeld();
    }

    method ConsumeToken(expected: Byte) returns (taken: bool)
      requires Steady() && expected != 0
      modifies this`src
      ensures Steady() && taken == (At(e.text, old(src)) == expected)
      ensures src == if taken then old(src) + 1 else old(src)
    {
      taken := Consume(expected);
      StillHeld();
    }

    method ParseObject()
      requires Steady() && At(e.text, src) == LBRACE && Safe(Recursive.Object(e, St()).error)
      modifies this, buf
      ensures Valid() && Before(old(src)) && Same(Recursive.Object(e, old(St())))
      ensures result.None? ==> Steady() && stack == old(stack)
      decreases |e.text| - src, 1
    {
      hide Held, Blank, Recursive.Members, Recursive.MemberEnd, Overrun.Cut;
      ghost var s0 := St();
      TakeToken();
      CallPlain(StartObject, src);
      if result.Some? { return; }
      SkipWhitespaceAndComments();
      if result.Some? { return; }
      var empty := ConsumeToken(RBRACE);
      if empty {
        CallPlain(EndObject(0), src);
        return;
      }
      var count := 0;
      while true
        invariant Steady() && Before(old(src)) && stack == old(stack) && old(src) < src
        invariant Recursive.Object(e, s0) == Recursive.Members(e, St(), count)
        decreases |e.text| - src
      {
        ParseMember(count);
        if result.Some? { return; }
        count := count + 1;
        var closed := MemberEnd(count);
        if result.Some? || closed { return; }
      }
    }

    /** What `ParseObject` does behind its `n`th member. */
    method MemberEnd(n: nat) returns (closed: bool)
      requires Steady() && 0 < n
      modifies this`src, this`events, this`result
      ensures Valid()
      ensures result.None? ==> Steady() && old(src) < src
      ensures if result.None? && !closed then Recursive.MemberEnd(e, old(St()), n - 1) == Recursive.Members(e, St(), n)
              else Same(Recursive.MemberEnd(e, old(St()), n - 1))
    {
      hide Held, Blank, Recursive.Members;
      closed := false;
      var comma := ConsumeToken(COMMA);
      if comma {
        SkipWhitespaceAndComments();
        if result.Some? { return; }
      } else {
        closed := ConsumeToken(RBRACE);
        if closed {
          CallPlain(EndObject(n), src);
        } else {
          SetParseError(ObjectMissCommaOrCurlyBracket, src);
        }
        return;
      }
      if e.flags.trailingCommas {
        var c := Peek();
        if c == RBRACE {
          closed := true;
          CallPlain(EndObject(n), src);
          if result.None? { TakeToken(); }
        }
      }
    }

    /** The loop body of `ParseObject` up to the white space behind the value. */
    method ParseMember(ghost n: nat)
      requires Steady() && Safe(Recursive.Members(e, St(), n).error)
      modifies this, buf
      ensures Valid() && Before(old(src))
      ensures if result.None? then
                && Steady() && stack == old(stack) && old(src) < src
                && Recursive.Members(e, old(St()), n) == Recursive.MemberEnd(e, St(), n)
              else Same(Recursive.Members(e, old(St()), n))
      decreases |e.text| - src, 3
    {
      hide Held, Blank, Send, ParsedString, Recursive.MemberEnd, Recursive.Value, Overrun.Cut;
      var c := Peek();
      if c != QUOTE {
        SetParseError(ObjectMissName, src);
        return;
      }
      ParseString(true);
      if result.Some? { return; }
      SkipWhitespaceAndComments();
      if result.Some? { return; }
      var colon := ConsumeToken(COLON);
      if !colon {
        SetParseError(ObjectMissColon, src);
        return;
      }
      SkipWhitespaceAndComments();
      if result.Some? { return; }
      ParseValue();
      if result.Some? { return; }
      SkipWhitespaceAndComments();
    }

    method ParseArray()
      requires Steady() && At(e.text, src) == LBRACKET && Safe(Recursive.Array(e, St()).error)
      modifies this, buf
      ensures Valid() && Before(old(src)) && Same(Recursive.Array(e, old(St())))
      ensures result.None? ==> Steady() && stack == old(stack)
      decreases |e.text| - src, 1
    {
      hide Held, Blank, Recursive.Elements, Recursive.ElementEnd, Overrun.Cut;
      ghost var s0 := St();
      TakeToken();
      CallPlain(StartArray, src);
      if result.Some? { return; }
      SkipWhitespaceAndComments();
      if result.Some? { return; }
      var empty := ConsumeToken(RBRACKET);
      if empty {
        CallPlain(EndArray(0), src);
        return;
      }
      var count := 0;
      while true
        invariant Steady() && Before(old(src)) && stack == old(stack) && old(src) < src
        invariant Recursive.Array(e, s0) == Recursive.Elements(e, St(), count)
        decreases |e.text| - src
      {
        ParseElement(count);
        if result.Some? { return; }
        count := count + 1;
        var closed := ElementEnd(count);
        if result.Some? || closed { return; }
      }
    }

    /** What `ParseArray` does behind its `n`th element. */
    method ElementEnd(n: nat) returns (closed: bool)
      requires Steady() && 0 < n
      modifies this`src, this`events, this`result
      ensures Valid()
      ensures result.None? ==> Steady() && old(src) < src
      ensures if result.None? && !closed then
                Recursive.ElementEnd(e, old(St()), n - 1) == Recursive.Elements(e, St(), n)
              else Same(Recursive.ElementEnd(e, old(St()), n - 1))
    {
      hide Held, Blank, Recursive.Elements;
      closed := false;
      var comma := ConsumeToken(COMMA);
      if comma {
        SkipWhitespaceAndComments();
        if result.Some? { return; }
      } else {
        closed := ConsumeToken(RBRACKET);
        if closed {
          CallPlain(EndArray(n), src);
        } else {
          SetParseError(ArrayMissCommaOrSquareBracket, src);
        }
        return;
      }
      if e.flags.trailingCommas {
        var c := Peek();
        if c == RBRACKET {
          closed := true;
          CallPlain(EndArray(n), src);
          if result.None? { TakeToken(); }
        }
      }
    }

    /** The loop body of `ParseArray` up to the white space behind the element. */
    method ParseElement(ghost n: nat)
      requires Steady() && Safe(Recursive.Elements(e, St(), n).error)
      modifies this, buf
      ensures Valid() && Before(old(src))
      ensures if result.None? then
                && Steady() && stack == old(stack) && old(src) < src
                && Recursive.Elements(e, old(St()), n) == Recursive.ElementEnd(e, St(), n)
              else Same(Recursive.Elements(e, old(St()), n))
      decreases |e.text| - src, 3
    {
      hide Held, Blank, Recursive.ElementEnd, Recursive.Value;
      ParseValue();
      if result.Some? { return; }
      SkipWhitespaceAndComments();
    }

    /** `Parse` of a whole text, by either parser. */
    method Parse(iterative: bool)
      requires Steady() && St() == Recursive.START && stack == []
      requires Overrun.Overruns(e) ==> buf.Length >= |e.text| + 3
      modifies this, buf
      ensures stack == [] && Same(if iterative then Iterative.Parse(e) else Recursive.Parse(e))
      ensures overrun <==> Overrun.Overruns(e)
      ensures result.None? ==> Held()
    {
      hide Recursive.Value, Held, TextsOf, Blank, Iterative.Parse, Overrun.Cut, Overrun.Overruns;
      Overrun.OverrunsExactly(e);
      if iterative {
        IterativeParse();
        return;
      }
      SkipWhitespaceAndComments();
      if result.None? {
        var c := Peek();
        if c == 0 {
          SetParseError(DocumentEmpty, src);
        } else {
          ParseValue();
          if result.None? && !e.flags.stopWhenDone {
            SkipWhitespaceAndComments();
            if result.None? {
              c := Peek();
              if c != 0 {
                SetParseError(DocumentRootNotSingular, src);
              }
            }
          }
        }
      }
      stack := [];
    }

    // The pushdown machine

    method PushFrame(mode: Iterative.Mode, count: nat, ghost frames: seq<Iterative.Frame>)
      requires stack == CellsOf(frames)
      modifies this`stack
      ensures stack == CellsOf(frames + [Iterative.Frame(mode, count)])
    {
      var frame := Iterative.Frame(mode, count);
      assert (frames + [frame])[..|frames|] == frames;
      stack := stack + [ModeCell(mode)];
      stack := stack + [CountCell(count)];
    }

    method PopFrame(ghost frames: seq<Iterative.Frame>) returns (mode: Iterative.Mode, count: nat)
      requires stack == CellsOf(frames) && frames != []
      modifies this`stack
      ensures Iterative.Frame(mode, count) == frames[|frames| - 1] && stack == CellsOf(frames[..|frames| - 1])
    {
      count := stack[|stack| - 1].n;
      stack := stack[..|stack| - 1];
      mode := stack[|stack| - 1].mode;
      stack := stack[..|stack| - 1];
    }

    /** The machine of the specification that this object is in. */
    ghost function Machine(state: Iterative.Mode, frames: seq<Iterative.Frame>): Iterative.Machine
      reads this
    {
      Iterative.Machine(state, frames, St())
    }

    ghost predicate Running(state: Iterative.Mode, frames: seq<Iterative.Frame>)
      reads this, buf
    {
      Steady() && Iterative.Running(e, Machine(state, frames)) && stack == CellsOf(frames)
    }

    /** The object has arrived at the machine `n`. */
    ghost predicate Arrived(next: Iterative.Mode, n: Iterative.Machine)
      reads this, buf
    {
      && Valid() && next == n.mode && Same(n.s)
      && (!next.ErrorMode? ==> Steady() && stack == CellsOf(n.stack))
    }

    method Open(state: Iterative.Mode, dst: Iterative.Mode, ghost frames: seq<Iterative.Frame>)
        returns (next: Iterative.Mode)
      requires Running(state, frames) && src < |e.text| && !state.Finish?
      requires dst.ObjectInitial? || dst.ArrayInitial?
      requires Iterative.After(state).Start? || Iterative.After(state).Element? || Iterative.After(state).MemberValue?
      modifies this`stack, this`src, this`events, this`result
      ensures Arrived(next, Iterative.Opened(e, old(Machine(state, frames)), dst))
    {
      hide TextsOf, Iterative.Running, Held, Overrun.Cut;
      var n := Iterative.After(state);
      PushFrame(n, 0, frames);
      StillHeld();
      CallPlain(if dst.ObjectInitial? then StartObject else StartArray, src);
      if result.Some? { return Iterative.ErrorMode; }
      TakeToken();
      next := dst;
    }

    method Close(state: Iterative.Mode, isObject: bool, ghost frames: seq<Iterative.Frame>)
        returns (next: Iterative.Mode)
      requires Running(state, frames) && src < |e.text| && frames != []
      modifies this`stack, this`src, this`events, this`result
      ensures Arrived(next, Iterative.Closed(e, old(Machine(state, frames)), isObject))
    {
      hide TextsOf, Iterative.Running, Held, Overrun.Cut;
      if !e.flags.trailingCommas && (state.MemberDelimiter? || state.ElementDelimiter?) {
        SetParseError(if isObject then ObjectMissName else ValueInvalid, src);
        return Iterative.ErrorMode;
      }
      var n, c := PopFrame(frames);
      if state.MemberValue? || state.Element? { c := c + 1; }
      if n.Start? { n := Iterative.Finish; }
      StillHeld();
      CallPlain(if isObject then EndObject(c) else EndArray(c), src);
      if result.Some? { return Iterative.ErrorMode; }
      TakeToken();
      next := n;
    }

    /** Add one to the count on top of the stack. */
    method Count(ghost frames: seq<Iterative.Frame>)
      requires stack == CellsOf(frames) && frames != []
      modifies this`stack
      ensures stack == CellsOf(Iterative.Counted(frames))
    {
      assert Iterative.Counted(frames)[..|frames| - 1] == frames[..|frames| - 1];
      stack := stack[|stack| - 1 := CountCell(stack[|stack| - 1].n + 1)];
    }

    method Transit(state: Iterative.Mode, token: Iterative.Token, dst: Iterative.Mode,
                   ghost frames: seq<Iterative.Frame>)
        returns (next: Iterative.Mode)
      requires Running(state, frames) && At(e.text, src) != 0
      requires token == Iterative.Tokenize(At(e.text, src)) && dst == Iterative.Predict(state, token)
      requires Safe(Iterative.Transit(e, Machine(state, frames), dst).s.error)
      modifies this, buf
      ensures Arrived(next, Iterative.Transit(e, old(Machine(state, frames)), dst))
    {
      hide TextsOf, Held, Iterative.Opened, Iterative.Closed, ScalarValue, Name, Iterative.Counted, CellsOf,
        Recursive.Value, Overrun.Cut;
      TransitCases(state, token, At(e.text, src));
      match dst
      case ErrorMode =>
        next := dst;
      case ObjectInitial | ArrayInitial =>
        next := Open(state, dst, frames);
      case MemberKey =>
        NameLeaf();
        ParseString(true);
        next := if result.Some? then Iterative.ErrorMode else dst;
      case KeyValueDelimiter =>
        assert token.Colon?;
        TakeToken();
        next := dst;
      case MemberValue | Element =>
        ValueLeaf();
        ParseValue();
        next := if result.Some? then Iterative.ErrorMode else dst;
      case MemberDelimiter | ElementDelimiter =>
        TakeToken();
        Count(frames);
        StillHeld();
        next := dst;
      case ObjectFinish =>
        next := Close(state, true, frames);
      case ArrayFinish =>
        next := Close(state, false, frames);
      case SingleValue =>
        ValueLeaf();
        ParseValue();
        next := if result.Some? then Iterative.ErrorMode else Iterative.Finish;
      case _ =>
        assert false;
    }

    lemma NameLeaf()
      requires Ready() && At(e.text, src) == QUOTE
      ensures ParseState.Name(e, St()) == SendLeaf(e, St(), ParsedString(e, src, true))
    {
    }

    lemma ValueLeaf()
      requires Ready() && At(e.text, src) != LBRACE && At(e.text, src) != LBRACKET
      ensures Recursive.Value(e, St()) == ScalarValue(e, St())
    {
    }

    method HandleError(state: Iterative.Mode, ghost frames: seq<Iterative.Frame>)
      requires Iterative.Shaped(state, frames)
      modifies this`result
      ensures St() == Iterative.HandleError(state, old(St()))
    {
      if result.Some? { return; }
      match state
      case Start => SetParseError(DocumentEmpty, src);
      case Finish => SetParseError(DocumentRootNotSingular, src);
      case ObjectInitial | MemberDelimiter => SetParseError(ObjectMissName, src);
      case MemberKey => SetParseError(ObjectMissColon, src);
      case MemberValue => SetParseError(ObjectMissCommaOrCurlyBracket, src);
      case KeyValueDelimiter | ArrayInitial | ElementDelimiter => SetParseError(ValueInvalid, src);
      case Element => SetParseError(ArrayMissCommaOrSquareBracket, src);
      case _ => assert false;
    }

    method IterativeParse()
      requires Steady() && St() == Recursive.START && stack == [] && Safe(Iterative.Parse(e).error)
      modifies this, buf
      ensures Valid() && stack == [] && Same(Iterative.Parse(e))
      ensures result.None? ==> Held()
    {
      hide Iterative.Loop;
      SkipWhitespaceAndComments();
      if result.None? {
        assert St() == Blank(e, Recursive.START);
        RunMachine();
      }
      stack := [];
    }

    /** The loop of `IterativeParse` and what follows it. */
    method RunMachine()
      requires Running(Iterative.Start, []) && Safe(Iterative.Loop(e, Machine(Iterative.Start, [])).error)
      modifies this, buf
      ensures Valid() && Same(Iterative.Loop(e, old(Machine(Iterative.Start, []))))
      ensures result.None? ==> Held()
    {
      hide Held, Iterative.Transit, Iterative.Predict, Iterative.Tokenize, Blank, TextsOf, CellsOf, Iterative.Shaped,
        Overrun.Cut;
      ghost var m0 := Machine(Iterative.Start, []);
      var state := Iterative.Start;
      ghost var frames: seq<Iterative.Frame> := [];
      var c := Peek();
      while c != 0
        invariant Running(state, frames) && c == At(e.text, src)
        invariant Iterative.Loop(e, m0) == Iterative.Loop(e, Machine(state, frames))
        decreases |e.text| - src
      {
        var token := Iterative.Tokenize(c);
        var n := Iterative.Predict(state, token);
        ghost var m := Iterative.Transit(e, Machine(state, frames), n);
        var d := Transit(state, token, n, frames);
        if d.ErrorMode? {
          HandleError(state, frames);
          break;
        }
        state, frames := d, m.stack;
        if e.flags.stopWhenDone && state.Finish? { break; }
        SkipWhitespaceAndComments();
        if result.Some? { return; }
        c := Peek();
      }
      if !state.Finish? { HandleError(state, frames); }
    }
  }

  /** The cells that a list of frames takes up. */
  function CellsOf(frames: seq<Iterative.Frame>): seq<Cell> {
    if frames == [] then []
    else
      var top := frames[|frames| - 1];
      CellsOf(frames[..|frames| - 1]) + [ModeCell(top.mode), CountCell(top.count)]
  }

  /** What the next byte is, by where the table leads. */
  lemma TransitCases(state: Iterative.Mode, token: Iterative.Token, c: Byte)
    requires token == Iterative.Tokenize(c) && c != 0
    ensures var dst := Iterative.Predict(state, token);
            && (dst.MemberKey? ==> c == QUOTE)
            && (dst.KeyValueDelimiter? ==> token.Colon?)
            && (dst.MemberValue? || dst.Element? || dst.SingleValue? ==> c != LBRACE && c != LBRACKET)
            && !dst.Finish? && !dst.Start?
  {
  }

  lemma MatchedFirst(t: Text, p: nat, word: Text)
    requires word != []
    ensures Matched(t, p, word) == if At(t, p) == word[0] then 1 + Matched(t, p + 1, word[1..]) else 0
  {
  }

  lemma DecimalSnoc(t: Text, p: nat, q: nat)
    requires p <= q < |t| && AllDigits(t[p..q]) && IsDigit(t[q])
    ensures AllDigits(t[p..q + 1])
    ensures Decimal(t[p..q + 1]) == Decimal(t[p..q]) * 10 + (t[q] - 0x30)
  {
    assert t[p..q + 1][..q - p] == t[p..q];
    assert t[p..q + 1] == t[p..q] + [t[q]];
  }

  lemma OneDigit(t: Text, p: nat)
    requires p < |t| && IsDigit(t[p])
    ensures AllDigits(t[p..p + 1]) && Decimal(t[p..p + 1]) == t[p] - 0x30
  {
    DecimalSnoc(t, p, p);
    assert t[p..p] == [];
  }

  /** More digits never make the value smaller. */
  lemma {:induction false} DecimalGrows(t: Text, p: nat, q: nat, r: nat)
    requires p <= q <= r <= |t| && AllDigits(t[p..r])
    ensures AllDigits(t[p..q]) && Decimal(t[p..q]) <= Decimal(t[p..r])
    decreases r - q
  {
    assert forall i :: 0 <= i < q - p ==> t[p..q][i] == t[p..r][i];
    if q < r {
      assert t[p..r][q - p] == t[q];
      DecimalSnoc(t, p, q);
      DecimalGrows(t, p, q + 1, r);
    }
  }

  lemma SliceOfDigits(t: Text, p: nat, q: nat)
    requires p <= q <= |t|
    ensures AllDigits(t[p..q]) <==> forall i :: p <= i < q ==> IsDigit(At(t, i))
  {
    assert forall i :: p <= i < q ==> t[p..q][i - p] == At(t, i);
    assert forall i :: 0 <= i < q - p ==> t[p..q][i] == At(t, p + i);
  }

  /** A literal whose digits up to `q` with the next one exceed a limit exceeds it. */
  lemma TooMuch(t: Text, p: nat, q: nat)
    requires p <= q < |t| && AllDigits(t[p..q]) && IsDigit(t[q])
    ensures var r := DigitsEnd(t, q);
            && q < r <= |t| && AllDigits(t[p..r])
            && Decimal(t[p..q]) * 10 + (t[q] - 0x30) <= Decimal(t[p..r])
  {
    hide Decimal, AllDigits;
    var r := DigitsEnd(t, q);
    SliceOfDigits(t, p, q);
    SliceOfDigits(t, p, r);
    DecimalSnoc(t, p, q);
    DecimalGrows(t, p, q + 1, r);
  }

  lemma EndOfDigits(t: Text, p: nat, q: nat)
    requires p < q <= |t| && AllDigits(t[p..q]) && !IsDigit(At(t, q))
    ensures DigitsEnd(t, p) == q
  {
    Numerals.DigitsEndAt(t, p, t[p..q]);
  }

  lemma NoExponent(e: Env, start: nat, p: nat)
    requires start <= p <= |e.text|
    ensures At(e.text, p) != 0x65 && At(e.text, p) != 0x45 ==> Exponent(e, start, p) == ScanOk(p)
  {
  }

  lemma MatchedPair(t: Text, p: nat)
    ensures Matched(t, p, [BACKSLASH, LOWER_U]) == 2 <==> At(t, p) == BACKSLASH && At(t, p + 1) == LOWER_U
  {
    assert [BACKSLASH, LOWER_U][1..] == [LOWER_U];
    assert [LOWER_U][1..] == [];
  }
}
