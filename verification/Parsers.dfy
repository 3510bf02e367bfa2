/** What the two parsers of `GenericReader` share: the state of a parse, the white
    space between tokens and the leaves. */
module ParseState {
  import opened Bytes
  import opened Sax
  import opened Lexer

  /** Where the stream stands, what the handler has been sent, and `parseResult_`. */
  datatype State = State(pos: nat, events: seq<Event>, error: Option<Error>) {
    predicate Ok() {
      error.None?
    }

    function Fail(code: ErrorCode, offset: nat): State {
      this.(error := Some(Error(code, offset)))
    }
  }

  predicate Within(e: Env, s: State) {
    s.Ok() && s.pos <= |e.text|
  }

  /** Between `s` and `r`, the stream moved on by at least one byte. */
  predicate Advanced(e: Env, s: State, r: State) {
    r.Ok() ==> s.pos < r.pos <= |e.text|
  }

  /** Move to `pos` and send `event`; a refusal is reported at `reported`. */
  function Send(e: Env, s: State, pos: nat, event: Event, reported: nat): (r: State)
    ensures r.pos == pos && r.events == s.events + [event]
    ensures r.Ok() || r.error.value == Error(Termination, reported)
  {
    var events := s.events + [event];
    State(pos, events, if e.handler(events) then None else Some(Error(Termination, reported)))
  }

  /** `SkipWhitespaceAndComments`. */
  function Blank(e: Env, s: State): (r: State)
    requires Within(e, s)
    ensures r.events == s.events
    ensures r.Ok() ==> s.pos <= r.pos <= |e.text|
    ensures !r.Ok() ==> r.error.value.code.UnspecificSyntaxError?
  {
    match Skip(e.text, s.pos, e.flags.comments)
    case SkipOk(p) => s.(pos := p)
    case SkipBad(offset) => s.Fail(UnspecificSyntaxError, offset)
  }

  function SendLeaf(e: Env, s: State, leaf: Leaf): State {
    match leaf
    case Leaf(p, event, reported) => Send(e, s, p, event, reported)
    case BadLeaf(error) => s.(error := Some(error))
  }

  function ScalarValue(e: Env, s: State): (r: State)
    requires Within(e, s)
    ensures Advanced(e, s, r)
  {
    SendLeaf(e, s, Scalar(e, s.pos))
  }

  function Name(e: Env, s: State): (r: State)
    requires Within(e, s) && At(e.text, s.pos) == QUOTE
    ensures Advanced(e, s, r)
  {
    SendLeaf(e, s, ParsedString(e, s.pos, true))
  }

  function Peek(e: Env, s: State): Byte {
    At(e.text, s.pos)
  }
}

/** Recursive descent: `Parse`, `ParseValue`, `ParseObject` and `ParseArray`. */
module Recursive {
  import opened Bytes
  import opened Sax
  import opened Lexer
  import opened ParseState

  function Value(e: Env, s: State): (r: State)
    requires Within(e, s)
    ensures Advanced(e, s, r)
    decreases |e.text| - s.pos, 2
  {
    if Peek(e, s) == LBRACE then Object(e, s)
    else if Peek(e, s) == LBRACKET then Array(e, s)
    else ScalarValue(e, s)
  }

  function Object(e: Env, s: State): (r: State)
    requires Within(e, s) && Peek(e, s) == LBRACE
    ensures Advanced(e, s, r)
    decreases |e.text| - s.pos, 1
  {
    var s1 := Send(e, s, s.pos + 1, StartObject, s.pos + 1);
    if !s1.Ok() then s1
    else
      var s2 := Blank(e, s1);
      if !s2.Ok() then s2
      else if Peek(e, s2) == RBRACE then Send(e, s2, s2.pos + 1, EndObject(0), s2.pos + 1)
      else Members(e, s2, 0)
  }

  /** The loop of `ParseObject`, when `n` members have been parsed. */
  function Members(e: Env, s: State, n: nat): (r: State)
    requires Within(e, s)
    ensures Advanced(e, s, r)
    decreases |e.text| - s.pos, 3
  {
    if Peek(e, s) != QUOTE then s.Fail(ObjectMissName, s.pos)
    else
      var s1 := Name(e, s);
      if !s1.Ok() then s1
      else
        var s2 := Blank(e, s1);
        if !s2.Ok() then s2 else Member(e, s2, n)
  }

  /** The loop body of `ParseObject` from the colon on. */
  function Member(e: Env, s: State, n: nat): (r: State)
    requires Within(e, s)
    ensures Advanced(e, s, r)
    decreases |e.text| - s.pos, 3
  {
    if Peek(e, s) != COLON then s.Fail(ObjectMissColon, s.pos)
    else
      var s1 := Blank(e, s.(pos := s.pos + 1));
      if !s1.Ok() then s1
      else
        var s2 := Value(e, s1);
        if !s2.Ok() then s2
        else
          var s3 := Blank(e, s2);
          if !s3.Ok() then s3 else MemberEnd(e, s3, n)
  }

  /** The loop body of `ParseObject` behind a complete member. */
  function MemberEnd(e: Env, s: State, n: nat): (r: State)
    requires Within(e, s)
    ensures Advanced(e, s, r)
    decreases |e.text| - s.pos, 3
  {
    if Peek(e, s) == COMMA then
      var s1 := Blank(e, s.(pos := s.pos + 1));
      if !s1.Ok() then s1
      else if e.flags.trailingCommas && Peek(e, s1) == RBRACE then
        Send(e, s1, s1.pos + 1, EndObject(n + 1), s1.pos)
      else Members(e, s1, n + 1)
    else if Peek(e, s) == RBRACE then Send(e, s, s.pos + 1, EndObject(n + 1), s.pos + 1)
    else s.Fail(ObjectMissCommaOrCurlyBracket, s.pos)
  }

  function Array(e: Env, s: State): (r: State)
    requires Within(e, s) && Peek(e, s) == LBRACKET
    ensures Advanced(e, s, r)
    decreases |e.text| - s.pos, 1
  {
    var s1 := Send(e, s, s.pos + 1, StartArray, s.pos + 1);
    if !s1.Ok() then s1
    else
      var s2 := Blank(e, s1);
      if !s2.Ok() then s2
      else if Peek(e, s2) == RBRACKET then Send(e, s2, s2.pos + 1, EndArray(0), s2.pos + 1)
      else Elements(e, s2, 0)
  }

  /** The loop of `ParseArray`, when `n` elements have been parsed. */
  function Elements(e: Env, s: State, n: nat): (r: State)
    requires Within(e, s)
    ensures Advanced(e, s, r)
    decreases |e.text| - s.pos, 3
  {
    var s1 := Value(e, s);
    if !s1.Ok() then s1
    else
      var s2 := Blank(e, s1);
      if !s2.Ok() then s2 else ElementEnd(e, s2, n)
  }

  /** The loop body of `ParseArray` behind a complete element. */
  function ElementEnd(e: Env, s: State, n: nat): (r: State)
    requires Within(e, s)
    ensures Advanced(e, s, r)
    decreases |e.text| - s.pos, 3
  {
    if Peek(e, s) == COMMA then
      var s1 := Blank(e, s.(pos := s.pos + 1));
      if !s1.Ok() then s1
      else if e.flags.trailingCommas && Peek(e, s1) == RBRACKET then
        Send(e, s1, s1.pos + 1, EndArray(n + 1), s1.pos)
      else Elements(e, s1, n + 1)
    else if Peek(e, s) == RBRACKET then Send(e, s, s.pos + 1, EndArray(n + 1), s.pos + 1)
    else s.Fail(ArrayMissCommaOrSquareBracket, s.pos)
  }

  const START: State := State(0, [], None)

  /** `GenericReader::Parse` without `kParseIterativeFlag`. */
  function Parse(e: Env): State {
    var s1 := Blank(e, START);
    if !s1.Ok() then s1
    else if Peek(e, s1) == 0 then s1.Fail(DocumentEmpty, s1.pos)
    else
      var s2 := Value(e, s1);
      if !s2.Ok() || e.flags.stopWhenDone then s2
      else
        var s3 := Blank(e, s2);
        if s3.Ok() && Peek(e, s3) != 0 then s3.Fail(DocumentRootNotSingular, s3.pos) else s3
  }
}

/** The table-driven pushdown machine: `Tokenize`, `Predict`, `Transit`, `HandleError`
    and `IterativeParse`. */
module Iterative {
  import opened Bytes
  import opened Sax
  import opened Lexer
  import opened ParseState
  import Recursive

  datatype Mode =
    | Start
    | Finish
    | ErrorMode
    | ObjectInitial
    | MemberKey
    | KeyValueDelimiter
    | MemberValue
    | MemberDelimiter
    | ObjectFinish
    | ArrayInitial
    | Element
    | ElementDelimiter
    | ArrayFinish
    | SingleValue

  datatype Token =
    | LeftBracket
    | RightBracket
    | LeftCurlyBracket
    | RightCurlyBracket
    | Comma
    | Colon
    | StringToken
    | FalseToken
    | TrueToken
    | NullToken
    | NumberToken

  function Tokenize(c: Byte): Token {
    match c
    case 0x22 => StringToken
    case 0x2C => Comma
    case 0x3A => Colon
    case 0x5B => LeftBracket
    case 0x5D => RightBracket
    case 0x66 => FalseToken
    case 0x6E => NullToken
    case 0x74 => TrueToken
    case 0x7B => LeftCurlyBracket
    case 0x7D => RightCurlyBracket
    case _ => NumberToken
  }

  predicate IsScalarToken(t: Token) {
    t.StringToken? || t.FalseToken? || t.TrueToken? || t.NullToken? || t.NumberToken?
  }

  /** The row of the table `G` for a mode that waits for a value, which goes to
      `after` when the value is not compound. */
  function PredictValue(token: Token, after: Mode): Mode {
    if token.LeftBracket? then ArrayInitial
    else if token.LeftCurlyBracket? then ObjectInitial
    else if IsScalarToken(token) then after
    else ErrorMode
  }

  /** The table `G`. */
  function Predict(mode: Mode, token: Token): Mode {
    match mode
    case Start => PredictValue(token, SingleValue)
    case ObjectInitial | MemberDelimiter =>
      if token.RightCurlyBracket? then ObjectFinish else if token.StringToken? then MemberKey else ErrorMode
    case MemberKey => if token.Colon? then KeyValueDelimiter else ErrorMode
    case KeyValueDelimiter => PredictValue(token, MemberValue)
    case MemberValue =>
      if token.RightCurlyBracket? then ObjectFinish else if token.Comma? then MemberDelimiter else ErrorMode
    case ArrayInitial | ElementDelimiter =>
      if token.RightBracket? then ArrayFinish else PredictValue(token, Element)
    case Element =>
      if token.RightBracket? then ArrayFinish else if token.Comma? then ElementDelimiter else ErrorMode
    case Finish | ErrorMode | ObjectFinish | ArrayFinish | SingleValue => ErrorMode
  }

  /** Two stack cells: the mode to return to, and the children closed by a comma. */
  datatype Frame = Frame(mode: Mode, count: nat)

  datatype Machine = Machine(mode: Mode, stack: seq<Frame>, s: State)

  predicate InContainer(mode: Mode) {
    InObject(mode) || InArray(mode)
  }

  predicate InObject(mode: Mode) {
    mode.ObjectInitial? || mode.MemberKey? || mode.KeyValueDelimiter? || mode.MemberValue? || mode.MemberDelimiter?
  }

  predicate InArray(mode: Mode) {
    mode.ArrayInitial? || mode.Element? || mode.ElementDelimiter?
  }

  /** The stack is a list of frames with `Start` at the bottom and `Element` or
      `MemberValue` above; it is empty exactly outside every container. */
  predicate Shaped(mode: Mode, stack: seq<Frame>) {
    && (InContainer(mode) || mode.Start? || mode.Finish?)
    && (InContainer(mode) <==> stack != [])
    && (forall i :: 0 <= i < |stack| ==>
          if i == 0 then stack[i].mode.Start? else stack[i].mode.Element? || stack[i].mode.MemberValue?)
  }

  /** The machine between two turns of the loop. */
  predicate Running(e: Env, m: Machine) {
    Within(e, m.s) && Shaped(m.mode, m.stack)
  }

  /** The mode that waits for a value goes on in this mode when the value is done. */
  function After(mode: Mode): Mode {
    if mode.ArrayInitial? || mode.ElementDelimiter? then Element
    else if mode.KeyValueDelimiter? then MemberValue
    else mode
  }

  function Opened(e: Env, m: Machine, dst: Mode): (r: Machine)
    requires Running(e, m) && m.s.pos < |e.text| && !m.mode.Finish?
    requires dst.ObjectInitial? || dst.ArrayInitial?
    requires After(m.mode).Start? || After(m.mode).Element? || After(m.mode).MemberValue?
    ensures r.mode.ErrorMode? || (Running(e, r) && m.s.pos < r.s.pos)
    ensures !r.s.Ok() ==> r.mode.ErrorMode?
  {
    var event := if dst.ObjectInitial? then StartObject else StartArray;
    var s := Send(e, m.s, m.s.pos, event, m.s.pos);
    Machine(if s.Ok() then dst else ErrorMode,
            m.stack + [Frame(After(m.mode), 0)],
            if s.Ok() then s.(pos := s.pos + 1) else s)
  }

  function Moved(e: Env, m: Machine, dst: Mode, s: State): (r: Machine)
    requires Running(e, m) && Shaped(dst, m.stack) && Advanced(e, m.s, s)
    ensures r.mode.ErrorMode? || (Running(e, r) && m.s.pos < r.s.pos)
    ensures !r.s.Ok() ==> r.mode.ErrorMode?
  {
    Machine(if s.Ok() then dst else ErrorMode, m.stack, s)
  }

  /** Top frame with its count raised by one. */
  function Counted(stack: seq<Frame>): (r: seq<Frame>)
    requires stack != []
    ensures |r| == |stack|
    ensures forall i :: 0 <= i < |stack| ==> r[i].mode == stack[i].mode
  {
    var top := stack[|stack| - 1];
    stack[|stack| - 1 := top.(count := top.count + 1)]
  }

  function Closed(e: Env, m: Machine, isObject: bool): (r: Machine)
    requires Running(e, m) && m.s.pos < |e.text| && m.stack != []
    ensures r.mode.ErrorMode? || (Running(e, r) && m.s.pos < r.s.pos)
    ensures !r.s.Ok() ==> r.mode.ErrorMode?
  {
    if !e.flags.trailingCommas && (m.mode.MemberDelimiter? || m.mode.ElementDelimiter?) then
      Machine(ErrorMode, m.stack, m.s.Fail(if isObject then ObjectMissName else ValueInvalid, m.s.pos))
    else
      var top := m.stack[|m.stack| - 1];
      var c := if m.mode.MemberValue? || m.mode.Element? then top.count + 1 else top.count;
      var s := Send(e, m.s, m.s.pos, if isObject then EndObject(c) else EndArray(c), m.s.pos);
      Machine(if !s.Ok() then ErrorMode else if top.mode.Start? then Finish else top.mode,
              m.stack[..|m.stack| - 1],
              if s.Ok() then s.(pos := s.pos + 1) else s)
  }

  /** `Transit` to `dst`, which `Predict` gave for the next token. */
  function Transit(e: Env, m: Machine, dst: Mode): (r: Machine)
    requires Running(e, m) && Peek(e, m.s) != 0 && dst == Predict(m.mode, Tokenize(Peek(e, m.s)))
    ensures r.mode.ErrorMode? || (Running(e, r) && m.s.pos < r.s.pos)
    ensures !r.s.Ok() ==> r.mode.ErrorMode?
  {
    if dst.ErrorMode? then m.(mode := ErrorMode)
    else if dst.ObjectInitial? || dst.ArrayInitial? then Opened(e, m, dst)
    else if dst.MemberKey? then Moved(e, m, dst, Name(e, m.s))
    else if dst.KeyValueDelimiter? then m.(mode := dst, s := m.s.(pos := m.s.pos + 1))
    else if dst.MemberValue? || dst.Element? then Moved(e, m, dst, ScalarValue(e, m.s))
    else if dst.MemberDelimiter? || dst.ElementDelimiter? then
      m.(mode := dst, s := m.s.(pos := m.s.pos + 1), stack := Counted(m.stack))
    else if dst.ObjectFinish? then Closed(e, m, true)
    else if dst.ArrayFinish? then Closed(e, m, false)
    else Moved(e, m, Finish, ScalarValue(e, m.s))
  }

  /** The code `HandleError` gives when the machine stops in `mode`. */
  function ErrorOf(mode: Mode): ErrorCode {
    match mode
    case Start => DocumentEmpty
    case Finish => DocumentRootNotSingular
    case ObjectInitial | MemberDelimiter => ObjectMissName
    case MemberKey => ObjectMissColon
    case MemberValue => ObjectMissCommaOrCurlyBracket
    case KeyValueDelimiter | ArrayInitial | ElementDelimiter => ValueInvalid
    case _ => ArrayMissCommaOrSquareBracket
  }

  function HandleError(mode: Mode, s: State): State {
    if s.Ok() then s.Fail(ErrorOf(mode), s.pos) else s
  }

  /** The loop of `IterativeParse` and what follows it. */
  function Loop(e: Env, m: Machine): State
    requires Running(e, m)
    decreases |e.text| - m.s.pos, 1
  {
    if Peek(e, m.s) == 0 then if m.mode.Finish? then m.s else HandleError(m.mode, m.s)
    else
      var n := Transit(e, m, Predict(m.mode, Tokenize(Peek(e, m.s))));
      if n.mode.ErrorMode? then HandleError(m.mode, n.s) else Resume(e, n)
  }

  /** The end of one turn of the loop, and the turns that follow. */
  function Resume(e: Env, m: Machine): State
    requires Running(e, m)
    decreases |e.text| - m.s.pos, 2
  {
    if e.flags.stopWhenDone && m.mode.Finish? then m.s
    else
      var s := Blank(e, m.s);
      if !s.Ok() then s else Loop(e, m.(s := s))
  }

  /** `IterativeParse`. */
  function Parse(e: Env): State {
    var s := Blank(e, Recursive.START);
    if !s.Ok() then s else Loop(e, Machine(Start, [], s))
  }
}
