/** When `Validate` reads behind the NUL that ends a text. */
module Overrun {
  import opened Bytes
  import opened Sax
  import opened Lexer
  import opened ParseState
  import opened Iterative
  import Agreement
  import History
  import Recursive
  import Utf8

  /** An invalid sequence that leads behind the NUL. */
  predicate Cut(t: Text, error: Option<Error>): (cut: bool)
    ensures cut ==> error.Some? && error.value.code.StringInvalidEncoding?
  {
    error.Some? && error.value.code.StringInvalidEncoding? && Utf8.CutShort(t, error.value.offset)
  }

  /** Valid pieces lead from `p`, in a string, to `q`. */
  predicate PieceFrom(t: Text, p: nat, q: nat)
    decreases |t| - p
  {
    p == q || var piece := NextPiece(t, p, true); piece.Chunk? && PieceFrom(t, p + piece.taken, q)
  }

  /** The machine reads a string next, a value or a name. */
  predicate ReadsString(e: Env, m: Machine) {
    Peek(e, m.s) == QUOTE && !Predict(m.mode, StringToken).ErrorMode?
  }

  ghost predicate StringCut(t: Text, p: nat) {
    exists q :: PieceFrom(t, p, q) && Utf8.CutShort(t, q)
  }

  ghost predicate ReadsCut(e: Env, m: Machine) {
    ReadsString(e, m) && StringCut(e.text, m.s.pos + 1)
  }

  /** Some string that the parse comes to has a piece whose lead byte announces more
      bytes than there are, the NUL included. */
  ghost predicate Overruns(e: Env) {
    var s := Blank(e, Recursive.START);
    && e.flags.validateEncoding && s.Ok()
    && exists m :: m in History.Run(e, Machine(Start, [], s)) && ReadsCut(e, m)
  }

  // The pieces of a string

  lemma CutInvalid(t: Text, p: nat)
    requires Utf8.CutShort(t, p)
    ensures NextPiece(t, p, true) == BadPiece(Error(StringInvalidEncoding, p))
  {
    Utf8.CutShortBytes(t, p);
    Utf8.ValidIsUtf8Char(t, p);
  }

  lemma BadPieceError(t: Text, p: nat, validate: bool)
    ensures var piece := NextPiece(t, p, validate);
            piece.BadPiece? && piece.error.code.StringInvalidEncoding? ==> validate && piece.error.offset == p
  {
    hide Hex4;
  }

  lemma {:induction false} StringFails(t: Text, p: nat, out: Text)
    ensures var r := StringFrom(t, p, true, out);
            StringCut(t, p) <==> r.Undecodable? && Cut(t, Some(r.error))
    decreases |t| - p
  {
    hide NextPiece, Utf8.CutShort;
    var piece := NextPiece(t, p, true);
    BadPieceError(t, p, true);
    if Utf8.CutShort(t, p) {
      CutInvalid(t, p);
      assert PieceFrom(t, p, p);
    } else if piece.Chunk? {
      StringFails(t, p + piece.taken, out + piece.out);
      if q :| PieceFrom(t, p + piece.taken, q) && Utf8.CutShort(t, q) {
        assert PieceFrom(t, p, q);
      }
    }
  }

  lemma {:induction false} NoEncodingError(t: Text, p: nat, out: Text)
    ensures var r := StringFrom(t, p, false, out);
            r.Undecodable? ==> !r.error.code.StringInvalidEncoding?
    decreases |t| - p
  {
    hide NextPiece;
    var piece := NextPiece(t, p, false);
    BadPieceError(t, p, false);
    if piece.Chunk? { NoEncodingError(t, p + piece.taken, out + piece.out); }
  }

  /** A string leaf fails on a sequence that leads behind the NUL exactly when it has
      such a piece. */
  lemma StringLeaf(e: Env, s: State, isKey: bool)
    requires Within(e, s)
    ensures Cut(e.text, SendLeaf(e, s, ParsedString(e, s.pos, isKey)).error)
            <==> e.flags.validateEncoding && StringCut(e.text, s.pos + 1)
  {
    hide StringFrom, StringCut;
    if e.flags.validateEncoding {
      StringFails(e.text, s.pos + 1, []);
    } else {
      NoEncodingError(e.text, s.pos + 1, []);
    }
  }

  lemma NumberError(e: Env, p: nat)
    requires p <= |e.text|
    ensures Number(e, p).BadLeaf? ==> !Number(e, p).error.code.StringInvalidEncoding?
  {
    hide DigitsEnd, IntegerEnd, DigitsBetween, Decimal, Matched;
  }

  lemma ScalarLeaf(e: Env, s: State)
    requires Within(e, s)
    ensures Cut(e.text, ScalarValue(e, s).error)
            <==> e.flags.validateEncoding && Peek(e, s) == QUOTE && StringCut(e.text, s.pos + 1)
  {
    hide StringCut, ParsedString, Number, Matched;
    if Peek(e, s) == QUOTE {
      StringLeaf(e, s, false);
    } else {
      NumberError(e, s.pos);
    }
  }

  // The run

  lemma StepCut(e: Env, m: Machine)
    requires Running(e, m) && Peek(e, m.s) != 0
    ensures Cut(e.text, Transit(e, m, Predict(m.mode, Tokenize(Peek(e, m.s)))).s.error)
            <==> e.flags.validateEncoding && ReadsCut(e, m)
  {
    hide StringCut, Cut, ScalarValue, ParsedString, Shaped;
    var dst := Predict(m.mode, Tokenize(Peek(e, m.s)));
    StringLeaf(e, m.s, true);
    ScalarLeaf(e, m.s);
  }

  lemma {:induction false} LoopCut(e: Env, m: Machine)
    requires Running(e, m)
    ensures Cut(e.text, Loop(e, m).error)
            <==> e.flags.validateEncoding && exists k :: k in History.Run(e, m) && ReadsCut(e, k)
    decreases |e.text| - m.s.pos
  {
    hide Transit, Predict, Tokenize, Blank, Cut, ReadsCut, Shaped;
    if Peek(e, m.s) == 0 {
      assert !ReadsCut(e, m) by { NothingRead(e, m); }
    } else {
      StepCut(e, m);
      var n := Transit(e, m, Predict(m.mode, Tokenize(Peek(e, m.s))));
      assert m in History.Run(e, m);
      if !n.mode.ErrorMode? && !(e.flags.stopWhenDone && n.mode.Finish?) {
        var s := Blank(e, n.s);
        if s.Ok() {
          LoopCut(e, n.(s := s));
          assert History.Run(e, m) == [m] + History.Run(e, n.(s := s));
        }
      }
    }
  }

  lemma NothingRead(e: Env, m: Machine)
    requires Peek(e, m.s) == 0
    ensures !ReadsCut(e, m)
  {
  }

  /** Of both parsers: some string leads behind the NUL if and only if the parse fails
      on it. */
  lemma OverrunsExactly(e: Env)
    ensures Overruns(e) <==> Cut(e.text, Iterative.Parse(e).error)
    ensures Overruns(e) <==> Cut(e.text, Recursive.Parse(e).error)
  {
    hide Loop, Recursive.Value, ReadsCut, Utf8.CutShort, History.Run;
    var s := Blank(e, Recursive.START);
    if s.Ok() {
      LoopCut(e, Machine(Start, [], s));
    }
    Agreement.ParsersAgree(e);
  }

  /** The last two bytes of a text in which a lead byte announces too much. */
  predicate EndsWithLead(t: Text) {
    var n := |t|;
    (1 <= n && 0xE0 <= t[n - 1] <= 0xF4) || (2 <= n && 0xF0 <= t[n - 2] <= 0xF4)
  }

  lemma StringCutEnd(t: Text, p: nat)
    requires StringCut(t, p)
    ensures EndsWithLead(t)
  {
    hide PieceFrom;
    var q :| PieceFrom(t, p, q) && Utf8.CutShort(t, q);
    Utf8.CutShortBytes(t, q);
  }

  /** Whether a text can do so shows in its last two bytes. */
  lemma OverrunsAtEnd(e: Env)
    requires Overruns(e)
    ensures EndsWithLead(e.text)
  {
    hide History.Run, StringCut, EndsWithLead, Blank, ReadsString;
    var m :| m in History.Run(e, Machine(Start, [], Blank(e, Recursive.START))) && ReadsCut(e, m);
    StringCutEnd(e.text, m.s.pos + 1);
  }

  lemma {:induction false} OctetsEnd(s: Text)
    requires Utf8.IsUtf8Octets(s) && s != []
    ensures s[|s| - 1] < 0xC0 && (2 <= |s| ==> s[|s| - 2] < 0xE0)
    decreases |s|
  {
    var n :| 1 <= n <= |s| && Utf8.IsUtf8Char(s[..n]) && Utf8.IsUtf8Octets(s[n..]);
    assert s[..n][n - 1] < 0xC0;
    if n < |s| { OctetsEnd(s[n..]); }
  }

  /** No text in UTF-8 does, whether or not it is JSON. */
  lemma Utf8Stays(e: Env)
    requires Utf8.IsUtf8Octets(e.text)
    ensures !Overruns(e)
  {
    hide Overruns;
    if Overruns(e) {
      OverrunsAtEnd(e);
      OctetsEnd(e.text);
    }
  }

  /** A quotation mark and 0xE0: three bytes are announced where there are one and the
      NUL. */
  lemma OverrunExample(e: Env)
    requires e.text == [QUOTE, 0xE0] && e.flags.validateEncoding
    ensures Overruns(e)
  {
    var m := Machine(Start, [], Recursive.START);
    assert SkipWs(e.text, 0) == 0;
    assert Blank(e, Recursive.START) == Recursive.START;
    assert PieceFrom(e.text, 1, 1) && Utf8.CutShort(e.text, 1);
    assert ReadsCut(e, m);
    assert m in History.Run(e, m);
  }
}
