/** What the events already sent say about the containers that are open, and how the
    stack of the iterative parser keeps up with it in every run. */
module History {
  import opened Bytes
  import opened Sax
  import opened Lexer
  import opened ParseState
  import opened Iterative
  import Recursive
  import Agreement

  /** An open container, its complete children, and whether a name awaits its value. */
  datatype Open = Open(isObject: bool, children: nat, named: bool)

  datatype Replay = Ill | Replay(open: seq<Open>, rootDone: bool)

  predicate TakesValue(r: Replay) {
    r.Replay? && if r.open == [] then !r.rootDone else var top := r.open[|r.open| - 1]; top.isObject ==> top.named
  }

  /** A value is complete in the innermost open container. */
  function ValueDone(r: Replay): Replay
    requires r.Replay?
  {
    if r.open == [] then Replay([], true)
    else
      var top := r.open[|r.open| - 1];
      Replay(r.open[|r.open| - 1 := Open(top.isObject, top.children + 1, false)], r.rootDone)
  }

  function Closes(r: Replay, isObject: bool, n: nat): Replay {
    if !r.Replay? || r.open == [] then Ill
    else
      var top := r.open[|r.open| - 1];
      if top.isObject != isObject || top.named || top.children != n then Ill
      else ValueDone(Replay(r.open[..|r.open| - 1], r.rootDone))
  }

  /** The rules of a well-formed event sequence: every value has its place, every
      closing event matches its opening one and carries the number of children. */
  function Next(r: Replay, event: Event): Replay {
    match event
    case StartObject => if TakesValue(r) then Replay(r.open + [Open(true, 0, false)], r.rootDone) else Ill
    case StartArray => if TakesValue(r) then Replay(r.open + [Open(false, 0, false)], r.rootDone) else Ill
    case EndObject(n) => Closes(r, true, n)
    case EndArray(n) => Closes(r, false, n)
    case Key(_) =>
      if !r.Replay? || r.open == [] then Ill
      else
        var top := r.open[|r.open| - 1];
        if !top.isObject || top.named then Ill
        else Replay(r.open[|r.open| - 1 := top.(named := true)], r.rootDone)
    case _ => if TakesValue(r) then ValueDone(r) else Ill
  }

  function ReplayOf(events: seq<Event>): Replay {
    if events == [] then Replay([], false)
    else Next(ReplayOf(events[..|events| - 1]), events[|events| - 1])
  }

  lemma ReplaySnoc(events: seq<Event>, event: Event)
    ensures ReplayOf(events + [event]) == Next(ReplayOf(events), event)
  {
    assert (events + [event])[..|events|] == events;
  }

  predicate ValueJustDone(mode: Mode) {
    mode.MemberValue? || mode.Element?
  }

  /** The frames below the top: the mode to return to names the kind of the container,
      and the count is the number of its complete children. */
  predicate FramesTrack(stack: seq<Frame>, open: seq<Open>) {
    && |stack| == |open|
    && forall i :: 0 <= i < |stack| - 1 ==>
         && open[i].children == stack[i].count
         && open[i].isObject == open[i].named == stack[i + 1].mode.MemberValue?
  }

  predicate TopTracks(mode: Mode, top: Frame, open: Open) {
    && open.isObject == InObject(mode)
    && open.named == (mode.MemberKey? || mode.KeyValueDelimiter?)
    && open.children == top.count + (if ValueJustDone(mode) then 1 else 0)
    && (mode.ObjectInitial? || mode.ArrayInitial? ==> top.count == 0)
    && (mode.MemberDelimiter? || mode.ElementDelimiter? ==> top.count > 0)
  }

  predicate StackTracks(mode: Mode, stack: seq<Frame>, r: Replay) {
    && r.Replay?
    && FramesTrack(stack, r.open)
    && (if stack == [] then r.rootDone == mode.Finish?
        else TopTracks(mode, stack[|stack| - 1], r.open[|stack| - 1]))
  }

  /** Mode and stack say about the open containers what the sent events say. */
  predicate Tracks(m: Machine) {
    StackTracks(m.mode, m.stack, ReplayOf(m.s.events))
  }

  lemma PushTracks(mode: Mode, stack: seq<Frame>, r: Replay, isObject: bool)
    requires Shaped(mode, stack) && StackTracks(mode, stack, r) && Agreement.AwaitsValue(mode)
    ensures TakesValue(r)
    ensures StackTracks(if isObject then ObjectInitial else ArrayInitial,
                        stack + [Frame(After(mode), 0)],
                        Replay(r.open + [Open(isObject, 0, false)], r.rootDone))
  {
  }

  lemma DoneTracks(mode: Mode, stack: seq<Frame>, r: Replay)
    requires Shaped(mode, stack) && StackTracks(mode, stack, r) && Agreement.AwaitsValue(mode)
    ensures TakesValue(r) && StackTracks(Agreement.Done(mode), stack, ValueDone(r))
  {
  }

  lemma PopTracks(mode: Mode, stack: seq<Frame>, r: Replay)
    requires Shaped(mode, stack) && StackTracks(mode, stack, r) && stack != []
    requires !mode.MemberKey? && !mode.KeyValueDelimiter?
    ensures var k := |stack| - 1;
            StackTracks(Agreement.Popped(stack), stack[..k], ValueDone(Replay(r.open[..k], r.rootDone)))
  {
    var k := |stack| - 1;
    if k > 0 {
      assert stack[k].mode.Element? || stack[k].mode.MemberValue?;
      assert r.open[k - 1].children == stack[k - 1].count;
    }
  }

  lemma OpenedTracks(e: Env, m: Machine, dst: Mode)
    requires Running(e, m) && Tracks(m) && Agreement.AwaitsValue(m.mode) && m.s.pos < |e.text|
    requires dst.ObjectInitial? || dst.ArrayInitial?
    ensures ReplayOf(Opened(e, m, dst).s.events).Replay?
    ensures !Opened(e, m, dst).mode.ErrorMode? ==> Tracks(Opened(e, m, dst))
  {
    hide StackTracks, Shaped, Send, ReplayOf;
    ReplaySnoc(m.s.events, if dst.ObjectInitial? then StartObject else StartArray);
    PushTracks(m.mode, m.stack, ReplayOf(m.s.events), dst.ObjectInitial?);
    TracksReplay(m.mode, m.stack, ReplayOf(m.s.events));
  }

  lemma TracksReplay(mode: Mode, stack: seq<Frame>, r: Replay)
    requires StackTracks(mode, stack, r)
    ensures r.Replay? && |r.open| == |stack|
  {
  }

  lemma ScalarTracks(e: Env, m: Machine)
    requires Running(e, m) && Tracks(m) && Agreement.AwaitsValue(m.mode)
    ensures var n := Moved(e, m, Agreement.Done(m.mode), ScalarValue(e, m.s));
            ReplayOf(n.s.events).Replay? && (!n.mode.ErrorMode? ==> Tracks(n))
  {
    hide Scalar, Send, StackTracks, Shaped, ReplayOf;
    var leaf := Scalar(e, m.s.pos);
    TracksReplay(m.mode, m.stack, ReplayOf(m.s.events));
    DoneTracks(m.mode, m.stack, ReplayOf(m.s.events));
    if leaf.Leaf? {
      ReplaySnoc(m.s.events, leaf.event);
    }
  }

  lemma NameTracks(e: Env, m: Machine)
    requires Running(e, m) && Tracks(m) && (m.mode.ObjectInitial? || m.mode.MemberDelimiter?) && Peek(e, m.s) == QUOTE
    ensures var n := Moved(e, m, MemberKey, Name(e, m.s));
            ReplayOf(n.s.events).Replay? && (!n.mode.ErrorMode? ==> Tracks(n))
  {
    hide StringFrom, Send, Shaped, ReplayOf;
    assert m.stack != [] by { ContainerStack(m.mode, m.stack); }
    var leaf := ParsedString(e, m.s.pos, true);
    if leaf.Leaf? {
      ReplaySnoc(m.s.events, leaf.event);
    }
  }

  lemma ContainerStack(mode: Mode, stack: seq<Frame>)
    requires Shaped(mode, stack)
    ensures InContainer(mode) <==> stack != []
  {
  }

  lemma CountedTracks(e: Env, m: Machine)
    requires Running(e, m) && Tracks(m) && ValueJustDone(m.mode)
    ensures ReplayOf(m.s.events).Replay?
    ensures Tracks(Machine(if m.mode.MemberValue? then MemberDelimiter else ElementDelimiter,
                           Counted(m.stack), m.s.(pos := m.s.pos + 1)))
  {
  }

  lemma ClosedTracks(e: Env, m: Machine, isObject: bool)
    requires Running(e, m) && Tracks(m) && m.stack != [] && m.s.pos < |e.text|
    requires isObject == InObject(m.mode) && !m.mode.MemberKey? && !m.mode.KeyValueDelimiter?
    ensures var n := Closed(e, m, isObject);
            ReplayOf(n.s.events).Replay? && (!n.mode.ErrorMode? ==> Tracks(n))
  {
    hide Send, Shaped, ReplayOf, FramesTrack, ValueDone;
    var r := ReplayOf(m.s.events);
    TracksReplay(m.mode, m.stack, r);
    PopTracks(m.mode, m.stack, r);
    var c := r.open[|m.stack| - 1].children;
    ReplaySnoc(m.s.events, if isObject then EndObject(c) else EndArray(c));
  }

  /** Every turn of the loop keeps mode and stack in step with the events, and what
      has been sent stays well-formed even where the turn fails. */
  lemma TransitTracks(e: Env, m: Machine)
    requires Running(e, m) && Tracks(m) && Peek(e, m.s) != 0
    ensures var n := Transit(e, m, Predict(m.mode, Tokenize(Peek(e, m.s))));
            ReplayOf(n.s.events).Replay? && (!n.mode.ErrorMode? ==> Tracks(n))
  {
    hide Opened, Closed, Moved, Counted, ScalarValue, Name, Tracks, ReplayOf;
    var dst := Predict(m.mode, Tokenize(Peek(e, m.s)));
    if dst.ObjectInitial? || dst.ArrayInitial? {
      OpenedTracks(e, m, dst);
    } else if dst.MemberKey? {
      NameTracks(e, m);
    } else if dst.MemberValue? || dst.Element? || dst.SingleValue? {
      ScalarTracks(e, m);
    } else if dst.MemberDelimiter? || dst.ElementDelimiter? {
      CountedTracks(e, m);
    } else if dst.ObjectFinish? || dst.ArrayFinish? {
      ClosedTracks(e, m, dst.ObjectFinish?);
    } else {
      StillTracks(m, dst);
    }
  }

  lemma StillTracks(m: Machine, dst: Mode)
    requires Tracks(m)
    ensures ReplayOf(m.s.events).Replay?
    ensures m.mode.MemberKey? && dst.KeyValueDelimiter? && m.stack != [] ==>
              Tracks(m.(mode := dst, s := m.s.(pos := m.s.pos + 1)))
  {
  }

  /** The machines at the head of the loop, in the order in which a run meets them. */
  function Run(e: Env, m: Machine): seq<Machine>
    requires Running(e, m)
    decreases |e.text| - m.s.pos
  {
    if Peek(e, m.s) == 0 then [m]
    else
      var n := Transit(e, m, Predict(m.mode, Tokenize(Peek(e, m.s))));
      if n.mode.ErrorMode? || (e.flags.stopWhenDone && n.mode.Finish?) then [m]
      else
        var s := Blank(e, n.s);
        if !s.Ok() then [m] else [m] + Run(e, n.(s := s))
  }

  /** In every run, from the first turn to the last, the stack has its shape and
      tracks the events; so no pop or count ever misses its frame. */
  lemma {:induction false} RunTracks(e: Env, m: Machine)
    requires Running(e, m) && Tracks(m)
    ensures forall n :: n in Run(e, m) ==> Running(e, n) && Tracks(n)
    decreases |e.text| - m.s.pos
  {
    hide Transit, Predict, Tokenize, Shaped, StackTracks, ReplayOf;
    if Peek(e, m.s) != 0 {
      TransitTracks(e, m);
      var n := Transit(e, m, Predict(m.mode, Tokenize(Peek(e, m.s))));
      if !n.mode.ErrorMode? && !(e.flags.stopWhenDone && n.mode.Finish?) {
        var s := Blank(e, n.s);
        if s.Ok() {
          RunTracks(e, n.(s := s));
          assert Run(e, m) == [m] + Run(e, n.(s := s));
        }
      }
    }
  }

  lemma FinishHistory(e: Env, m: Machine)
    requires Running(e, m) && Tracks(m)
    ensures ReplayOf(m.s.events).Replay?
    ensures m.mode.Finish? ==> ReplayOf(m.s.events) == Replay([], true)
  {
  }

  lemma {:induction false} LoopHistory(e: Env, m: Machine)
    requires Running(e, m) && Tracks(m)
    ensures var i := Loop(e, m);
            ReplayOf(i.events).Replay? && (i.Ok() ==> ReplayOf(i.events) == Replay([], true))
    decreases |e.text| - m.s.pos
  {
    hide Transit, Predict, Tokenize, Shaped, StackTracks, ReplayOf;
    FinishHistory(e, m);
    if Peek(e, m.s) != 0 {
      TransitTracks(e, m);
      var n := Transit(e, m, Predict(m.mode, Tokenize(Peek(e, m.s))));
      if !n.mode.ErrorMode? {
        FinishHistory(e, n);
        var s := Blank(e, n.s);
        if s.Ok() { LoopHistory(e, n.(s := s)); }
      }
    }
  }

  /** Both parsers, on every text, with every handler: what has been sent is the
      beginning of a balanced sequence whose closing events carry the number of
      direct children; on success it is one whole value. */
  lemma EventsBalanced(e: Env)
    ensures ReplayOf(Iterative.Parse(e).events).Replay? && ReplayOf(Recursive.Parse(e).events).Replay?
    ensures Iterative.Parse(e).Ok() ==> ReplayOf(Iterative.Parse(e).events) == Replay([], true)
    ensures Recursive.Parse(e).Ok() ==> ReplayOf(Recursive.Parse(e).events) == Replay([], true)
  {
    hide Loop, Recursive.Value;
    Agreement.ParsersAgree(e);
    var s := Blank(e, Recursive.START);
    if s.Ok() {
      LoopHistory(e, Machine(Start, [], s));
    }
  }
}
