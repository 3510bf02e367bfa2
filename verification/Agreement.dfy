/** The two parsers of `GenericReader` agree. */
module Agreement {
  import opened Bytes
  import opened Sax
  import opened Lexer
  import opened ParseState
  import opened Iterative
  import Recursive

  /** The bytes that stop `ParseNumber` at once: they cannot begin a value. */
  predicate Punctuation(c: Byte) {
    c == 0 || c == COMMA || c == COLON || c == RBRACKET || c == RBRACE
  }

  /** Both parsers fail with the same code after the same events. The offset is the
      same too, except that when the handler refuses an opening or a closing event the
      recursive parser has already taken the bracket; behind a trailing comma it
      has not. */
  predicate FailAlike(e: Env, r: State, i: State) {
    && r.error.Some? && i.error.Some?
    && r.events == i.events
    && r.error.value.code == i.error.value.code
    && var ahead := r.error.value.offset - i.error.value.offset;
       if !r.error.value.code.Termination? || r.events == [] then ahead == 0
       else if Opening(r.events[|r.events| - 1]) then ahead == 1
       else if Closing(r.events[|r.events| - 1]) then ahead == 1 || (e.flags.trailingCommas && ahead == 0)
       else ahead == 0
  }

  /** The iterative parser goes on in `next` where the recursive one returns `r`. */
  predicate Simulates(e: Env, m: Machine, r: State, next: Machine)
    requires Running(e, m)
  {
    if r.Ok() then Running(e, next) && Loop(e, m) == Resume(e, next)
    else FailAlike(e, r, Loop(e, m))
  }

  predicate AwaitsValue(mode: Mode) {
    mode.Start? || mode.KeyValueDelimiter? || mode.ArrayInitial? || mode.ElementDelimiter?
  }

  /** The mode in which the loop goes on when the value it waited for is complete. */
  function Done(mode: Mode): Mode {
    if mode.Start? then Finish else After(mode)
  }

  /** The same, when the innermost container is closed. */
  function Popped(stack: seq<Frame>): Mode
    requires stack != []
  {
    var top := stack[|stack| - 1].mode;
    if top.Start? then Finish else top
  }

  lemma ScalarOnPunctuation(e: Env, p: nat)
    requires p <= |e.text| && Punctuation(At(e.text, p))
    ensures Scalar(e, p) == BadLeaf(Error(ValueInvalid, p))
  {
  }

  // One turn of the loop, by mode and token

  lemma StepScalar(e: Env, m: Machine)
    requires Running(e, m) && AwaitsValue(m.mode)
    requires !Punctuation(Peek(e, m.s)) && Peek(e, m.s) != LBRACE && Peek(e, m.s) != LBRACKET
    ensures Simulates(e, m, ScalarValue(e, m.s), Machine(Done(m.mode), m.stack, ScalarValue(e, m.s)))
  {
    hide Scalar, Predict, Tokenize, Shaped, Punctuation;
    ScalarPredicts(m.mode, Peek(e, m.s));
    DoneShaped(m.mode, m.stack);
  }

  /** Where the table leads from a mode that waits for a value. */
  lemma ScalarPredicts(mode: Mode, c: Byte)
    requires AwaitsValue(mode) && !Punctuation(c) && c != LBRACE && c != LBRACKET
    ensures c != 0 && Predict(mode, Tokenize(c)) == if mode.Start? then SingleValue else Done(mode)
  {
    assert IsScalarToken(Tokenize(c));
  }

  lemma OpenPredicts(mode: Mode, c: Byte)
    requires AwaitsValue(mode)
    ensures c == LBRACE ==> Predict(mode, Tokenize(c)).ObjectInitial?
    ensures c == LBRACKET ==> Predict(mode, Tokenize(c)).ArrayInitial?
  {
  }

  lemma DoneShaped(mode: Mode, stack: seq<Frame>)
    requires Shaped(mode, stack) && AwaitsValue(mode)
    ensures Shaped(Done(mode), stack) && After(mode) == if mode.Start? then Start else Done(mode)
  {
  }

  lemma StepName(e: Env, m: Machine)
    requires Running(e, m) && (m.mode.ObjectInitial? || m.mode.MemberDelimiter?) && Peek(e, m.s) == QUOTE
    ensures Simulates(e, m, Name(e, m.s), Machine(MemberKey, m.stack, Name(e, m.s)))
  {
  }

  lemma StepOpen(e: Env, m: Machine, dst: Mode)
    requires Running(e, m) && AwaitsValue(m.mode)
    requires if dst.ObjectInitial? then Peek(e, m.s) == LBRACE else dst.ArrayInitial? && Peek(e, m.s) == LBRACKET
    ensures var s := Send(e, m.s, m.s.pos + 1, if dst.ObjectInitial? then StartObject else StartArray, m.s.pos + 1);
            Simulates(e, m, s, Machine(dst, m.stack + [Frame(After(m.mode), 0)], s))
  {
    hide Predict, Tokenize;
    OpenPredicts(m.mode, Peek(e, m.s));
    DoneShaped(m.mode, m.stack);
  }

  lemma TransitCloses(e: Env, m: Machine, isObject: bool)
    requires Running(e, m) && Peek(e, m.s) == if isObject then RBRACE else RBRACKET
    requires if isObject then m.mode.ObjectInitial? || m.mode.MemberValue? || m.mode.MemberDelimiter?
             else m.mode.ArrayInitial? || m.mode.Element? || m.mode.ElementDelimiter?
    ensures Transit(e, m, Predict(m.mode, Tokenize(Peek(e, m.s)))) == Closed(e, m, isObject)
  {
  }

  /** The closing bracket of the innermost container, when it is allowed there. */
  lemma StepClose(e: Env, m: Machine, isObject: bool, n: nat, reported: nat)
    requires Running(e, m) && Peek(e, m.s) == if isObject then RBRACE else RBRACKET
    requires if isObject then m.mode.ObjectInitial? || m.mode.MemberValue? || m.mode.MemberDelimiter?
             else m.mode.ArrayInitial? || m.mode.Element? || m.mode.ElementDelimiter?
    requires m.mode.MemberDelimiter? || m.mode.ElementDelimiter? ==> e.flags.trailingCommas
    requires m.stack[|m.stack| - 1].count + (if m.mode.MemberValue? || m.mode.Element? then 1 else 0) == n
    requires reported == m.s.pos + 1 || (e.flags.trailingCommas && reported == m.s.pos)
    ensures var s := Send(e, m.s, m.s.pos + 1, if isObject then EndObject(n) else EndArray(n), reported);
            Simulates(e, m, s, Machine(Popped(m.stack), m.stack[..|m.stack| - 1], s))
  {
    hide Transit, Predict, Tokenize;
    TransitCloses(e, m, isObject);
  }

  lemma StepComma(e: Env, m: Machine)
    requires Running(e, m) && (m.mode.MemberValue? || m.mode.Element?) && Peek(e, m.s) == COMMA
    ensures var next := Machine(if m.mode.MemberValue? then MemberDelimiter else ElementDelimiter,
                                Counted(m.stack), m.s.(pos := m.s.pos + 1));
            Running(e, next) && Loop(e, m) == Resume(e, next)
  {
  }

  lemma StepColon(e: Env, m: Machine)
    requires Running(e, m) && m.mode.MemberKey? && Peek(e, m.s) == COLON
    ensures var next := Machine(KeyValueDelimiter, m.stack, m.s.(pos := m.s.pos + 1));
            Running(e, next) && Loop(e, m) == Resume(e, next)
  {
  }

  /** A byte that the mode does not allow, or the end of the text. */
  lemma StepStop(e: Env, m: Machine)
    requires Running(e, m) && !m.mode.Finish?
    requires Peek(e, m.s) == 0 || Predict(m.mode, Tokenize(Peek(e, m.s))).ErrorMode?
             || (!e.flags.trailingCommas &&
                 (|| (m.mode.MemberDelimiter? && Peek(e, m.s) == RBRACE)
                   || (m.mode.ElementDelimiter? && Peek(e, m.s) == RBRACKET)))
    ensures Loop(e, m) == m.s.Fail(ErrorOf(m.mode), m.s.pos)
  {
  }

  // The simulation

  /** In any mode that waits for a value, the loop does what `ParseValue` does. */
  lemma {:induction false} SimulateValue(e: Env, m: Machine)
    requires Running(e, m) && AwaitsValue(m.mode)
    requires m.mode.Start? ==> !Punctuation(Peek(e, m.s))
    requires Peek(e, m.s) == RBRACKET ==> !m.mode.ArrayInitial? && !(m.mode.ElementDelimiter? && e.flags.trailingCommas)
    ensures var r := Recursive.Value(e, m.s);
            Simulates(e, m, r, Machine(Done(m.mode), m.stack, r))
    decreases |e.text| - m.s.pos, 2
  {
    hide Loop, Resume, Transit, Predict, Tokenize, Scalar;
    if Peek(e, m.s) == LBRACE {
      SimulateObject(e, m);
    } else if Peek(e, m.s) == LBRACKET {
      SimulateArray(e, m);
    } else if Punctuation(Peek(e, m.s)) {
      ScalarOnPunctuation(e, m.s.pos);
      if Peek(e, m.s) != 0 { PunctuationStops(e, m); }
      StepStop(e, m);
    } else {
      StepScalar(e, m);
    }
  }

  lemma PunctuationStops(e: Env, m: Machine)
    requires AwaitsValue(m.mode) && Punctuation(Peek(e, m.s)) && Peek(e, m.s) != 0
    ensures Predict(m.mode, Tokenize(Peek(e, m.s))).ErrorMode?
            || (Peek(e, m.s) == RBRACKET && (m.mode.ArrayInitial? || m.mode.ElementDelimiter?))
  {
  }

  lemma {:induction false} SimulateArray(e: Env, m: Machine)
    requires Running(e, m) && AwaitsValue(m.mode) && Peek(e, m.s) == LBRACKET
    ensures var r := Recursive.Array(e, m.s);
            Simulates(e, m, r, Machine(Done(m.mode), m.stack, r))
    decreases |e.text| - m.s.pos, 1
  {
    hide Loop, Send, Blank, Transit, Predict, Tokenize, Shaped, Recursive.Elements;
    StepOpen(e, m, ArrayInitial);
    var s1 := Send(e, m.s, m.s.pos + 1, StartArray, m.s.pos + 1);
    if s1.Ok() {
      var s2 := Blank(e, s1);
      if s2.Ok() {
        var m2 := Machine(ArrayInitial, m.stack + [Frame(After(m.mode), 0)], s2);
        assert m2.stack[..|m2.stack| - 1] == m.stack;
        assert Popped(m2.stack) == Done(m.mode);
        if Peek(e, s2) == RBRACKET {
          StepClose(e, m2, false, 0, s2.pos + 1);
        } else {
          SimulateElements(e, m2, 0);
        }
      }
    }
  }

  lemma {:induction false} SimulateElements(e: Env, m: Machine, n: nat)
    requires Running(e, m) && (m.mode.ArrayInitial? || m.mode.ElementDelimiter?)
    requires m.stack[|m.stack| - 1].count == n
    requires Peek(e, m.s) == RBRACKET ==> m.mode.ElementDelimiter? && !e.flags.trailingCommas
    ensures var r := Recursive.Elements(e, m.s, n);
            Simulates(e, m, r, Machine(Popped(m.stack), m.stack[..|m.stack| - 1], r))
    decreases |e.text| - m.s.pos, 3
  {
    hide Loop, Send, Blank, Transit, Predict, Tokenize, Recursive.Value, Recursive.ElementEnd;
    SimulateValue(e, m);
    var s1 := Recursive.Value(e, m.s);
    if s1.Ok() {
      var s2 := Blank(e, s1);
      if s2.Ok() {
        SimulateElementEnd(e, Machine(Element, m.stack, s2), n);
      }
    }
  }

  lemma {:induction false} SimulateElementEnd(e: Env, m: Machine, n: nat)
    requires Running(e, m) && m.mode.Element? && m.stack[|m.stack| - 1].count == n
    ensures var r := Recursive.ElementEnd(e, m.s, n);
            Simulates(e, m, r, Machine(Popped(m.stack), m.stack[..|m.stack| - 1], r))
    decreases |e.text| - m.s.pos, 3
  {
    hide Loop, Send, Blank, Transit, Predict, Tokenize, Recursive.Elements;
    if Peek(e, m.s) == COMMA {
      StepComma(e, m);
      var s3 := Blank(e, m.s.(pos := m.s.pos + 1));
      if s3.Ok() {
        var m3 := Machine(ElementDelimiter, Counted(m.stack), s3);
        assert Popped(m3.stack) == Popped(m.stack);
        assert m3.stack[..|m3.stack| - 1] == m.stack[..|m.stack| - 1];
        if e.flags.trailingCommas && Peek(e, s3) == RBRACKET {
          StepClose(e, m3, false, n + 1, s3.pos);
        } else {
          SimulateElements(e, m3, n + 1);
        }
      }
    } else if Peek(e, m.s) == RBRACKET {
      StepClose(e, m, false, n + 1, m.s.pos + 1);
    } else {
      ElementStops(e, m);
      StepStop(e, m);
    }
  }

  lemma ElementStops(e: Env, m: Machine)
    requires || (m.mode.Element? && Peek(e, m.s) != COMMA && Peek(e, m.s) != RBRACKET)
             || (m.mode.MemberValue? && Peek(e, m.s) != COMMA && Peek(e, m.s) != RBRACE)
             || (m.mode.MemberKey? && Peek(e, m.s) != COLON)
             || ((m.mode.ObjectInitial? || m.mode.MemberDelimiter?) && Peek(e, m.s) != QUOTE && Peek(e, m.s) != RBRACE)
    ensures Predict(m.mode, Tokenize(Peek(e, m.s))).ErrorMode?
  {
  }

  lemma {:induction false} SimulateObject(e: Env, m: Machine)
    requires Running(e, m) && AwaitsValue(m.mode) && Peek(e, m.s) == LBRACE
    ensures var r := Recursive.Object(e, m.s);
            Simulates(e, m, r, Machine(Done(m.mode), m.stack, r))
    decreases |e.text| - m.s.pos, 1
  {
    hide Loop, Send, Blank, Transit, Predict, Tokenize, Shaped, Recursive.Members;
    StepOpen(e, m, ObjectInitial);
    var s1 := Send(e, m.s, m.s.pos + 1, StartObject, m.s.pos + 1);
    if s1.Ok() {
      var s2 := Blank(e, s1);
      if s2.Ok() {
        var m2 := Machine(ObjectInitial, m.stack + [Frame(After(m.mode), 0)], s2);
        assert m2.stack[..|m2.stack| - 1] == m.stack;
        assert Popped(m2.stack) == Done(m.mode);
        if Peek(e, s2) == RBRACE {
          StepClose(e, m2, true, 0, s2.pos + 1);
        } else {
          SimulateMembers(e, m2, 0);
        }
      }
    }
  }

  lemma {:induction false} SimulateMembers(e: Env, m: Machine, n: nat)
    requires Running(e, m) && (m.mode.ObjectInitial? || m.mode.MemberDelimiter?)
    requires m.stack[|m.stack| - 1].count == n
    requires Peek(e, m.s) == RBRACE ==> m.mode.MemberDelimiter? && !e.flags.trailingCommas
    ensures var r := Recursive.Members(e, m.s, n);
            Simulates(e, m, r, Machine(Popped(m.stack), m.stack[..|m.stack| - 1], r))
    decreases |e.text| - m.s.pos, 3
  {
    hide Loop, Send, Blank, Transit, Predict, Tokenize, Name;
    if Peek(e, m.s) != QUOTE {
      if Peek(e, m.s) != RBRACE { ElementStops(e, m); }
      StepStop(e, m);
    } else {
      StepName(e, m);
      var s1 := Name(e, m.s);
      if s1.Ok() {
        var s2 := Blank(e, s1);
        if s2.Ok() {
          SimulateMember(e, Machine(MemberKey, m.stack, s2), n);
        }
      }
    }
  }

  lemma {:induction false} SimulateMember(e: Env, m: Machine, n: nat)
    requires Running(e, m) && m.mode.MemberKey? && m.stack[|m.stack| - 1].count == n
    ensures var r := Recursive.Member(e, m.s, n);
            Simulates(e, m, r, Machine(Popped(m.stack), m.stack[..|m.stack| - 1], r))
    decreases |e.text| - m.s.pos, 3
  {
    hide Loop, Send, Blank, Transit, Predict, Tokenize, Recursive.Value, Recursive.MemberEnd;
    if Peek(e, m.s) != COLON {
      ElementStops(e, m);
      StepStop(e, m);
    } else {
      StepColon(e, m);
      var s3 := Blank(e, m.s.(pos := m.s.pos + 1));
      if s3.Ok() {
        SimulateValue(e, Machine(KeyValueDelimiter, m.stack, s3));
        var s4 := Recursive.Value(e, s3);
        if s4.Ok() {
          var s5 := Blank(e, s4);
          if s5.Ok() {
            SimulateMemberEnd(e, Machine(MemberValue, m.stack, s5), n);
          }
        }
      }
    }
  }

  lemma {:induction false} SimulateMemberEnd(e: Env, m: Machine, n: nat)
    requires Running(e, m) && m.mode.MemberValue? && m.stack[|m.stack| - 1].count == n
    ensures var r := Recursive.MemberEnd(e, m.s, n);
            Simulates(e, m, r, Machine(Popped(m.stack), m.stack[..|m.stack| - 1], r))
    decreases |e.text| - m.s.pos, 3
  {
    hide Loop, Send, Blank, Transit, Predict, Tokenize, Recursive.Members;
    if Peek(e, m.s) == COMMA {
      StepComma(e, m);
      var s6 := Blank(e, m.s.(pos := m.s.pos + 1));
      if s6.Ok() {
        var m6 := Machine(MemberDelimiter, Counted(m.stack), s6);
        assert Popped(m6.stack) == Popped(m.stack);
        assert m6.stack[..|m6.stack| - 1] == m.stack[..|m.stack| - 1];
        if e.flags.trailingCommas && Peek(e, s6) == RBRACE {
          StepClose(e, m6, true, n + 1, s6.pos);
        } else {
          SimulateMembers(e, m6, n + 1);
        }
      }
    } else if Peek(e, m.s) == RBRACE {
      StepClose(e, m, true, n + 1, m.s.pos + 1);
    } else {
      ElementStops(e, m);
      StepStop(e, m);
    }
  }

  /** The first byte of the text that is neither white space nor comment is a bracket
      or a separator that cannot begin a value. */
  predicate StrayPunctuation(e: Env) {
    var s := Blank(e, Recursive.START);
    s.Ok() && Punctuation(Peek(e, s)) && Peek(e, s) != 0
  }

  /** For every text, every combination of flags and every handler: both parsers
      accept the same texts, send the same events whether they accept or not, stop
      at the same place when they accept, and fail alike, except on a text that
      begins with stray punctuation, where the codes differ. */
  lemma ParsersAgree(e: Env)
    ensures var r, i := Recursive.Parse(e), Iterative.Parse(e);
            && (r.Ok() <==> i.Ok())
            && r.events == i.events
            && (r.Ok() ==> r.pos == i.pos)
            && (if StrayPunctuation(e) then
                  var at := Blank(e, Recursive.START).pos;
                  r.error == Some(Error(ValueInvalid, at)) && i.error == Some(Error(DocumentEmpty, at))
                else !r.Ok() ==> FailAlike(e, r, i))
  {
    hide Loop, Send, Blank, Transit, Predict, Tokenize, Scalar, Recursive.Value;
    var s := Blank(e, Recursive.START);
    if s.Ok() {
      var m := Machine(Start, [], s);
      if Punctuation(Peek(e, s)) {
        StartStops(e, m);
        StepStop(e, m);
        ValueOnPunctuation(e, s);
      } else {
        SimulateValue(e, m);
        var r := Recursive.Value(e, s);
        if r.Ok() && !e.flags.stopWhenDone {
          var s3 := Blank(e, r);
          if s3.Ok() { FinishLoop(e, Machine(Finish, [], s3)); }
        }
      }
    }
  }

  lemma StartStops(e: Env, m: Machine)
    requires m.mode.Start? && Punctuation(Peek(e, m.s))
    ensures Peek(e, m.s) == 0 || Predict(m.mode, Tokenize(Peek(e, m.s))).ErrorMode?
  {
  }

  lemma ValueOnPunctuation(e: Env, s: State)
    requires Within(e, s) && Punctuation(Peek(e, s))
    ensures Recursive.Value(e, s) == s.Fail(ValueInvalid, s.pos)
  {
    ScalarOnPunctuation(e, s.pos);
  }

  lemma FinishLoop(e: Env, m: Machine)
    requires Running(e, m) && m.mode.Finish?
    ensures Loop(e, m) == if Peek(e, m.s) == 0 then m.s else m.s.Fail(DocumentRootNotSingular, m.s.pos)
  {
  }
}
