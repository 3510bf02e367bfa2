/** Any balanced sequence of events builds one value, and `Accept` gives the sequence
    back; the class `GenericDocument` (document.h) as parser target. */
module Documents {
  import opened Bytes
  import opened Sax
  import opened Values
  import opened Building
  import opened History
  import Lexer
  import ParseState
  import Recursive
  import Iterative
  import Agreement
  import Overrun
  import opened ReaderObject

  /** The cells above an open container. */
  function CellCount(top: Open): nat {
    if top.isObject then 2 * top.children + (if top.named then 1 else 0) else top.children
  }

  function Empty(isObject: bool): Value {
    if isObject then ObjectValue([]) else ArrayValue([])
  }

  /** The stack is, for every open container, an empty container with the cells of its
      complete children and its last name above it. */
  ghost predicate Shape(stack: seq<Value>, open: seq<Open>, rootDone: bool)
    decreases |open|
  {
    if open == [] then |stack| == if rootDone then 1 else 0
    else
      var top := open[|open| - 1];
      var k := |stack| - CellCount(top);
      && !rootDone && k >= 1 && stack[k - 1] == Empty(top.isObject)
      && (top.isObject ==> NamesHeld(stack[k..]))
      && TakesValue(Replay(open[..|open| - 1], false))
      && Shape(stack[..k - 1], open[..|open| - 1], false)
  }

  /** The events of names and values in turn. */
  function CellEvents(cells: seq<Value>): seq<Event> {
    if cells == [] then []
    else
      var last := cells[|cells| - 1];
      CellEvents(cells[..|cells| - 1])
      + (if |cells| % 2 == 1 && last.StringValue? then [Key(last.s)] else Accept(last))
  }

  /** The events that the stack stands for. */
  function Log(stack: seq<Value>, open: seq<Open>): seq<Event>
    decreases |open|
  {
    if open == [] || |stack| <= CellCount(open[|open| - 1]) then AcceptAll(stack)
    else
      var top := open[|open| - 1];
      var k := |stack| - CellCount(top);
      Log(stack[..k - 1], open[..|open| - 1]) + ([Start(top.isObject)] + ChildEvents(stack[k..], top.isObject))
  }

  function Start(isObject: bool): Event {
    if isObject then StartObject else StartArray
  }

  function ChildEvents(cells: seq<Value>, isObject: bool): seq<Event> {
    if isObject then CellEvents(cells) else AcceptAll(cells)
  }

  /** An event as a document gives it back: numbers in their narrowest form, raw
      numbers as strings. */
  function Normal(event: Event): Event {
    match event
    case Int(i) => NarrowestEvent(i)
    case Uint(i) => NarrowestEvent(i)
    case Int64(i) => NarrowestEvent(i)
    case Uint64(i) => NarrowestEvent(i)
    case RawNumber(s) => String(s)
    case _ => event
  }

  function NormalAll(events: seq<Event>): seq<Event> {
    seq(|events|, i requires 0 <= i < |events| => Normal(events[i]))
  }

  ghost predicate Sound(stack: seq<Value>) {
    forall i :: 0 <= i < |stack| ==> WellMade(stack[i]) && NoNumberAny(stack[i])
  }

  /** The value that a scalar event pushes. */
  function ScalarOf(event: Event): (v: Value)
    requires IsScalar(event)
  {
    match event
    case Null => NullValue
    case Bool(b) => BoolValue(b)
    case Int(i) => NumberValue(OfInt(i))
    case Uint(i) => NumberValue(OfUint(i))
    case Int64(i) => NumberValue(OfInt64(i))
    case Uint64(i) => NumberValue(OfUint64(i))
    case Double(d) => NumberValue(OfDouble(d))
    case RawNumber(s) => StringValue(s)
    case String(s) => StringValue(s)
  }

  lemma ScalarPushed(stack: seq<Value>, event: Event)
    requires IsScalar(event)
    ensures Handled(stack, event) == Some(stack + [ScalarOf(event)])
  {
    hide ArePairs, MembersOf;
  }

  lemma ScalarSound(event: Event)
    requires IsScalar(event)
    ensures var v := ScalarOf(event);
            Accept(v) == [Normal(event)] && WellMade(v) && NoNumberAny(v)
  {
    match event
    case Int(i) => ConstructorsAgree(i); CanonicalEvent(i); CanonicalMade(i);
    case Uint(i) => ConstructorsAgree(i); CanonicalEvent(i); CanonicalMade(i);
    case Int64(i) => ConstructorsAgree(i); CanonicalEvent(i); CanonicalMade(i);
    case Uint64(i) => ConstructorsAgree(i); CanonicalEvent(i); CanonicalMade(i);
    case _ =>
  }

  lemma CellPushed(cells: seq<Value>, v: Value, isObject: bool)
    requires isObject && |cells| % 2 == 0 ==> v.StringValue?
    ensures ChildEvents(cells + [v], isObject) ==
            ChildEvents(cells, isObject) + (if isObject && |cells| % 2 == 0 then [Key(v.s)] else Accept(v))
    ensures isObject && NamesHeld(cells) ==> NamesHeld(cells + [v])
  {
    hide Accept;
    assert (cells + [v])[..|cells|] == cells;
  }

  /** Open containers that end with `top` after one more cell has been pushed. */
  lemma CellOnTop(stack: seq<Value>, r: Replay, v: Value, top: Open)
    requires r.Replay? && Shape(stack, r.open, r.rootDone) && r.open != []
    requires var last := r.open[|r.open| - 1];
             && top.isObject == last.isObject && CellCount(top) == CellCount(last) + 1
             && (last.isObject && CellCount(last) % 2 == 0 ==> v.StringValue?)
    ensures var last := r.open[|r.open| - 1];
            var open := r.open[|r.open| - 1 := top];
            && Shape(stack + [v], open, false)
            && Log(stack + [v], open) ==
               Log(stack, r.open) + (if last.isObject && CellCount(last) % 2 == 0 then [Key(v.s)] else Accept(v))
  {
    hide Accept, CellCount, ChildEvents, NamesHeld, TakesValue;
    var n := |r.open| - 1;
    var last := r.open[n];
    var open := r.open[n := top];
    var k := |stack| - CellCount(last);
    assert open[..n] == r.open[..n];
    assert (stack + [v])[..k - 1] == stack[..k - 1];
    assert (stack + [v])[k..] == stack[k..] + [v];
    CellPushed(stack[k..], v, last.isObject);
    Associate(Log(stack[..k - 1], r.open[..n]), [Start(last.isObject)], ChildEvents(stack[k..], last.isObject),
              if last.isObject && CellCount(last) % 2 == 0 then [Key(v.s)] else Accept(v));
  }

  /** A complete value goes on top of the stack. */
  lemma ValuePushed(stack: seq<Value>, r: Replay, v: Value)
    requires r.Replay? && Shape(stack, r.open, r.rootDone) && TakesValue(r)
    ensures var n := ValueDone(r);
            && Shape(stack + [v], n.open, n.rootDone)
            && Log(stack + [v], n.open) == Log(stack, r.open) + Accept(v)
  {
    hide Accept, ChildEvents, NamesHeld, CellCount;
    if r.open == [] {
      CellPushed(stack, v, false);
      AllIsChildren(stack + [v]);
      AllIsChildren(stack);
    } else {
      hide Log, Shape;
      var top := r.open[|r.open| - 1];
      CountUp(top);
      CellOnTop(stack, r, v, Open(top.isObject, top.children + 1, false));
    }
  }

  lemma AllIsChildren(cells: seq<Value>)
    ensures ChildEvents(cells, false) == AcceptAll(cells)
  {
  }

  lemma CountUp(top: Open)
    requires top.isObject ==> top.named
    ensures CellCount(Open(top.isObject, top.children + 1, false)) == CellCount(top) + 1
    ensures top.isObject ==> CellCount(top) % 2 == 1
  {
  }

  lemma Associate(a: seq<Event>, b: seq<Event>, c: seq<Event>, d: seq<Event>)
    ensures a + (b + (c + d)) == a + (b + c) + d
  {
  }

  lemma ContainerOpened(stack: seq<Value>, r: Replay, isObject: bool)
    requires r.Replay? && Shape(stack, r.open, r.rootDone) && TakesValue(r)
    ensures var s := stack + [Empty(isObject)];
            var open := r.open + [Open(isObject, 0, false)];
            && Shape(s, open, r.rootDone)
            && Log(s, open) == Log(stack, r.open) + [Start(isObject)]
  {
    hide Log, ChildEvents, Shape, TakesValue, NamesHeld;
    NotDone(stack, r);
    var s := stack + [Empty(isObject)];
    var open := r.open + [Open(isObject, 0, false)];
    assert open[..|r.open|] == r.open && s[..|stack|] == stack && s[|stack| + 1..] == [];
    LogTop(s, open);
    NoChildren(isObject);
    ShapeIs(s, open);
    assert [Start(isObject)] + [] == [Start(isObject)];
  }

  lemma NotDone(stack: seq<Value>, r: Replay)
    requires r.Replay? && Shape(stack, r.open, r.rootDone) && TakesValue(r)
    ensures !r.rootDone && r == Replay(r.open, false)
  {
  }

  lemma ShapeIs(stack: seq<Value>, open: seq<Open>)
    requires open != []
    requires var top := open[|open| - 1];
             var k := |stack| - CellCount(top);
             && k >= 1 && stack[k - 1] == Empty(top.isObject) && (top.isObject ==> NamesHeld(stack[k..]))
             && TakesValue(Replay(open[..|open| - 1], false)) && Shape(stack[..k - 1], open[..|open| - 1], false)
    ensures Shape(stack, open, false)
  {
  }

  lemma NoChildren(isObject: bool)
    ensures ChildEvents([], isObject) == [] && NamesHeld([])
  {
  }

  lemma NamePushed(stack: seq<Value>, r: Replay, name: Text)
    requires r.Replay? && Shape(stack, r.open, r.rootDone) && Next(r, Key(name)).Replay?
    ensures var n := Next(r, Key(name));
            var s := stack + [StringValue(name)];
            Shape(s, n.open, n.rootDone) && Log(s, n.open) == Log(stack, r.open) + [Key(name)]
  {
    hide Shape, Log;
    ShapeTop(stack, r);
    CellOnTop(stack, r, StringValue(name), r.open[|r.open| - 1].(named := true));
  }

  lemma PairSnoc(c: seq<Value>, key: Value, v: Value)
    requires ArePairs(c) && key.StringValue?
    ensures ArePairs(c + [key] + [v]) && MembersOf(c + [key] + [v]) == MembersOf(c) + [Member(key.s, v)]
  {
  }

  lemma MembersSnoc(x: seq<Member>, m: Member)
    ensures AcceptMembers(x + [m]) == AcceptMembers(x) + ([Key(m.name)] + Accept(m.value))
  {
    hide Accept;
    assert (x + [m])[..|x|] == x;
  }

  lemma {:induction false} PairEvents(cells: seq<Value>)
    requires ArePairs(cells)
    ensures AcceptMembers(MembersOf(cells)) == ChildEvents(cells, true)
    decreases |cells|
  {
    hide AcceptMembers, MembersOf, ChildEvents, ArePairs, NamesHeld;
    if cells == [] {
      NoPairs();
    } else {
      PairsPrefix(cells);
      var c := cells[..|cells| - 2];
      PairEvents(c);
      PairStep(c, cells[|cells| - 2], cells[|cells| - 1]);
      assert cells == c + [cells[|cells| - 2]] + [cells[|cells| - 1]];
    }
  }

  lemma NoPairs()
    ensures ArePairs([]) && AcceptMembers(MembersOf([])) == ChildEvents([], true)
  {
  }

  lemma PairStep(c: seq<Value>, key: Value, v: Value)
    requires ArePairs(c) && key.StringValue? && AcceptMembers(MembersOf(c)) == ChildEvents(c, true)
    ensures ArePairs(c + [key] + [v]) && AcceptMembers(MembersOf(c + [key] + [v])) == ChildEvents(c + [key] + [v], true)
  {
    hide AcceptMembers, MembersOf, ChildEvents, NamesHeld, Accept;
    CellPushed(c, key, true);
    CellPushed(c + [key], v, true);
    PairSnoc(c, key, v);
    MembersSnoc(MembersOf(c), Member(key.s, v));
    Regroup3(ChildEvents(c, true), [Key(key.s)], Accept(v));
  }

  lemma PairsPrefix(cells: seq<Value>)
    requires ArePairs(cells) && cells != []
    ensures |cells| >= 2 && ArePairs(cells[..|cells| - 2]) && cells[|cells| - 2].StringValue?
  {
  }

  lemma Regroup3(a: seq<Event>, b: seq<Event>, c: seq<Event>)
    ensures a + b + c == a + (b + c)
  {
  }

  /** The value that a closing event makes of the innermost open container. */
  function ClosedValue(stack: seq<Value>, top: Open): Value
    requires CellCount(top) <= |stack| && !top.named
    requires top.isObject ==> NamesHeld(stack[|stack| - CellCount(top)..])
  {
    var cells := stack[|stack| - CellCount(top)..];
    if top.isObject then ObjectValue(MembersOf(cells)) else ArrayValue(cells)
  }

  lemma ContainerClosed(stack: seq<Value>, r: Replay, isObject: bool, n: nat)
    requires r.Replay? && Shape(stack, r.open, r.rootDone) && Closes(r, isObject, n).Replay?
    ensures var event := if isObject then EndObject(n) else EndArray(n);
            var next := Closes(r, isObject, n);
            var after := Handled(stack, event);
            && after.Some? && Shape(after.value, next.open, next.rootDone)
            && Log(after.value, next.open) == Log(stack, r.open) + [event]
            && (Sound(stack) ==> Sound(after.value))
  {
    hide Accept, Shape, TakesValue, ValueDone, Handled, Log, Sound, MembersOf, NamesHeld, ChildEvents,
      WellMade, NoNumberAny;
    var last := |r.open| - 1;
    var top := r.open[last];
    ShapeTop(stack, r);
    var k := |stack| - CellCount(top);
    var cells, base := stack[k..], stack[..k - 1];
    var v := ClosedValue(stack, top);
    var below := Replay(r.open[..last], false);
    var event := if isObject then EndObject(n) else EndArray(n);
    assert stack == base + [Empty(isObject)] + cells;
    if isObject {
      ObjectClosed(base, cells);
      PairEvents(cells);
    } else {
      ArrayClosed(base, cells);
    }
    ValuePushed(base, below, v);
    ClosedEvents(cells, isObject);
    LogTop(stack, r.open);
    Regroup(Log(base, below.open), [Start(isObject)], ChildEvents(cells, isObject), [event]);
    NewSound(base, v);
    if Sound(stack) { ClosedSound(stack, top); }
  }

  lemma Regroup(a: seq<Event>, b: seq<Event>, c: seq<Event>, d: seq<Event>)
    ensures a + (b + c) + d == a + (b + c + d)
  {
  }

  lemma NewSound(stack: seq<Value>, v: Value)
    ensures Sound(stack) && WellMade(v) && NoNumberAny(v) ==> Sound(stack + [v])
  {
  }

  lemma ShapeTop(stack: seq<Value>, r: Replay)
    requires r.Replay? && Shape(stack, r.open, r.rootDone) && r.open != []
    ensures var top := r.open[|r.open| - 1];
            var k := |stack| - CellCount(top);
            && !r.rootDone && k >= 1 && stack[k - 1] == Empty(top.isObject)
            && (top.isObject ==> NamesHeld(stack[k..]))
            && TakesValue(Replay(r.open[..|r.open| - 1], false))
            && Shape(stack[..k - 1], r.open[..|r.open| - 1], false)
  {
  }

  lemma LogTop(stack: seq<Value>, open: seq<Open>)
    requires open != [] && |stack| > CellCount(open[|open| - 1])
    ensures var top := open[|open| - 1];
            var k := |stack| - CellCount(top);
            Log(stack, open) == Log(stack[..k - 1], open[..|open| - 1])
                                + ([Start(top.isObject)] + ChildEvents(stack[k..], top.isObject))
  {
    hide ChildEvents;
  }

  lemma ClosedEvents(cells: seq<Value>, isObject: bool)
    requires isObject ==> ArePairs(cells)
    ensures Accept(if isObject then ObjectValue(MembersOf(cells)) else ArrayValue(cells)) ==
            [Start(isObject)] + ChildEvents(cells, isObject)
            + [if isObject then EndObject(|cells| / 2) else EndArray(|cells|)]
  {
    if isObject { PairEvents(cells); }
  }

  lemma ClosedSound(stack: seq<Value>, top: Open)
    requires CellCount(top) <= |stack| && !top.named && Sound(stack)
    requires top.isObject ==> NamesHeld(stack[|stack| - CellCount(top)..])
    ensures WellMade(ClosedValue(stack, top)) && NoNumberAny(ClosedValue(stack, top))
    ensures forall k :: 0 <= k <= |stack| ==> Sound(stack[..k])
  {
    var k := |stack| - CellCount(top);
    var cells := stack[k..];
    forall i | 0 <= i < |cells| ensures WellMade(cells[i]) && NoNumberAny(cells[i]) { assert cells[i] == stack[k + i]; }
  }

  /** One event keeps the stack in step with what has been sent. */
  lemma EventHandled(stack: seq<Value>, r: Replay, event: Event)
    requires r.Replay? && Shape(stack, r.open, r.rootDone) && Sound(stack) && Next(r, event).Replay?
    ensures var n := Next(r, event);
            var after := Handled(stack, event);
            && after.Some? && Shape(after.value, n.open, n.rootDone) && Sound(after.value)
            && Log(after.value, n.open) == Log(stack, r.open) + [Normal(event)]
  {
    hide Shape, Log, TakesValue, ValueDone, WellMade, NoNumberAny, ScalarOf, Accept, MembersOf;
    if IsScalar(event) {
      ScalarPushed(stack, event);
      ScalarSound(event);
      ValuePushed(stack, r, ScalarOf(event));
    } else {
      match event
      case StartObject => ContainerOpened(stack, r, true); EmptySound();
      case StartArray => ContainerOpened(stack, r, false); EmptySound();
      case EndObject(n) => ContainerClosed(stack, r, true, n);
      case EndArray(n) => ContainerClosed(stack, r, false, n);
      case Key(s) => NamePushed(stack, r, s); NameSound(s);
    }
  }

  lemma EmptySound()
    ensures forall isObject :: WellMade(Empty(isObject)) && NoNumberAny(Empty(isObject))
  {
  }

  lemma NameSound(s: Text)
    ensures WellMade(StringValue(s)) && NoNumberAny(StringValue(s))
  {
  }

  /** At every moment of any well-formed sequence, no pop takes what is not there, and
      the stack stands for exactly the events so far. */
  lemma {:induction false} StackStandsForEvents(events: seq<Event>)
    requires ReplayOf(events).Replay?
    ensures var r := ReplayOf(events);
            var stack := Fed([], events);
            && stack.Some? && Shape(stack.value, r.open, r.rootDone) && Sound(stack.value)
            && Log(stack.value, r.open) == NormalAll(events)
    decreases |events|
  {
    hide Next, Handled, Normal, Sound, Shape, Log, NormalAll;
    if events == [] {
      NothingSent();
    } else {
      var before, event := events[..|events| - 1], events[|events| - 1];
      NeverIllAgain(ReplayOf(before), event);
      StackStandsForEvents(before);
      EventHandled(Fed([], before).value, ReplayOf(before), event);
      NormalSnoc(before, event);
      assert events == before + [event];
    }
  }

  lemma NothingSent()
    ensures Shape([], [], false) && Sound([]) && Log([], []) == NormalAll([])
  {
  }

  lemma NormalSnoc(events: seq<Event>, event: Event)
    ensures NormalAll(events + [event]) == NormalAll(events) + [Normal(event)]
  {
    hide Normal;
  }

  lemma NeverIllAgain(r: Replay, event: Event)
    requires Next(r, event).Replay?
    ensures r.Replay?
  {
  }

  /** Any balanced sequence of one value ends with exactly one cell, and that value
      gives the sequence back. */
  lemma BalancedBuildsOne(events: seq<Event>)
    requires ReplayOf(events) == Replay([], true)
    ensures var stack := Fed([], events);
            && stack.Some? && |stack.value| == 1
            && WellMade(stack.value[0]) && NoNumberAny(stack.value[0])
            && Accept(stack.value[0]) == NormalAll(events)
  {
    StackStandsForEvents(events);
    var s := Fed([], events).value;
    assert s[..0] == [];
    assert AcceptAll(s) == AcceptAll([]) + Accept(s[0]);
  }

  // The events of a value are balanced

  lemma {:induction false} AcceptBalanced(events: seq<Event>, v: Value)
    requires TakesValue(ReplayOf(events))
    ensures ReplayOf(events + Accept(v)) == ValueDone(ReplayOf(events))
    decreases v
  {
    hide NumberEvent, TakesValue, Next, ReplayOf, ValueDone;
    match v
    case ArrayValue(x) =>
      OpensAndCloses(ReplayOf(events), false, |x|);
      var inside := events + [StartArray];
      ReplaySnoc(events, StartArray);
      AllBalanced(inside, x);
      ReplaySnoc(inside + AcceptAll(x), EndArray(|x|));
      assert events + Accept(v) == inside + AcceptAll(x) + [EndArray(|x|)];
    case ObjectValue(x) =>
      OpensAndCloses(ReplayOf(events), true, |x|);
      var inside := events + [StartObject];
      ReplaySnoc(events, StartObject);
      MembersBalanced(inside, x);
      ReplaySnoc(inside + AcceptMembers(x), EndObject(|x|));
      assert events + Accept(v) == inside + AcceptMembers(x) + [EndObject(|x|)];
    case _ =>
      NumberIsScalar(v);
      ReplaySnoc(events, Accept(v)[0]);
      assert events + Accept(v) == events + [Accept(v)[0]];
  }

  lemma NumberIsScalar(v: Value)
    requires !v.ArrayValue? && !v.ObjectValue?
    ensures Accept(v) == [Accept(v)[0]] && IsScalar(Accept(v)[0])
    ensures forall r :: TakesValue(r) ==> Next(r, Accept(v)[0]) == ValueDone(r)
  {
  }

  lemma OpensAndCloses(r: Replay, isObject: bool, n: nat)
    requires TakesValue(r)
    ensures r.Replay? && Next(r, Start(isObject)) == Replay(r.open + [Open(isObject, 0, false)], r.rootDone)
    ensures Next(Replay((r.open + [Open(isObject, 0, false)])[|r.open| := Open(isObject, n, false)], r.rootDone),
                 if isObject then EndObject(n) else EndArray(n)) == ValueDone(r)
  {
    assert (r.open + [Open(isObject, 0, false)])[|r.open| := Open(isObject, n, false)][..|r.open|] == r.open;
  }

  lemma {:induction false} AllBalanced(events: seq<Event>, x: seq<Value>)
    requires ReplayOf(events).Replay? && ReplayOf(events).open != []
    requires var top := ReplayOf(events).open[|ReplayOf(events).open| - 1];
             !top.isObject && !top.named
    ensures var r := ReplayOf(events);
            var k := |r.open| - 1;
            ReplayOf(events + AcceptAll(x)) ==
            Replay(r.open[k := r.open[k].(children := r.open[k].children + |x|)], r.rootDone)
    decreases x
  {
    hide Accept, ReplayOf;
    if x == [] {
      assert events + AcceptAll(x) == events;
    } else {
      var y, v := x[..|x| - 1], x[|x| - 1];
      AllBalanced(events, y);
      AcceptBalanced(events + AcceptAll(y), v);
      assert events + AcceptAll(x) == events + AcceptAll(y) + Accept(v);
    }
  }

  lemma {:induction false} MembersBalanced(events: seq<Event>, x: seq<Member>)
    requires ReplayOf(events).Replay? && ReplayOf(events).open != []
    requires var top := ReplayOf(events).open[|ReplayOf(events).open| - 1];
             top.isObject && !top.named
    ensures var r := ReplayOf(events);
            var k := |r.open| - 1;
            ReplayOf(events + AcceptMembers(x)) ==
            Replay(r.open[k := r.open[k].(children := r.open[k].children + |x|)], r.rootDone)
    decreases x
  {
    hide Accept, ReplayOf;
    if x == [] {
      assert events + AcceptMembers(x) == events;
    } else {
      var y, m := x[..|x| - 1], x[|x| - 1];
      MembersBalanced(events, y);
      var before := events + AcceptMembers(y);
      ReplaySnoc(before, Key(m.name));
      AcceptBalanced(before + [Key(m.name)], m.value);
      assert events + AcceptMembers(x) == before + [Key(m.name)] + Accept(m.value);
    }
  }

  // `Accept` with a handler that may refuse

  /** All that a handler has been sent, and whether it refused the last event. */
  datatype Delivery = Delivery(sent: seq<Event>, ok: bool)

  /** Events sent one by one up to the first refusal. */
  function Deliver(h: Handler, sent: seq<Event>, events: seq<Event>): Delivery
    decreases |events|
  {
    if events == [] then Delivery(sent, true)
    else
      var now := sent + [events[0]];
      if h(now) then Deliver(h, now, events[1..]) else Delivery(now, false)
  }

  lemma {:induction false} DeliverConcat(h: Handler, sent: seq<Event>, a: seq<Event>, b: seq<Event>)
    ensures var d := Deliver(h, sent, a);
            Deliver(h, sent, a + b) == if d.ok then Deliver(h, d.sent, b) else d
    decreases |a|
  {
    if a == [] {
      assert a + b == b;
    } else {
      assert (a + b)[1..] == a[1..] + b;
      DeliverConcat(h, sent + [a[0]], a[1..], b);
    }
  }

  function SendOne(h: Handler, sent: seq<Event>, event: Event): Delivery {
    Delivery(sent + [event], h(sent + [event]))
  }

  /** `Accept` as the source runs it, with an early return at every refusal. */
  function Visit(h: Handler, sent: seq<Event>, v: Value): Delivery
    decreases v, 0
  {
    match v
    case ArrayValue(x) =>
      var d := SendOne(h, sent, StartArray);
      if !d.ok then d
      else
        var d2 := VisitAll(h, d.sent, v, x, 0);
        if d2.ok then SendOne(h, d2.sent, EndArray(|x|)) else d2
    case ObjectValue(x) =>
      var d := SendOne(h, sent, StartObject);
      if !d.ok then d
      else
        var d2 := VisitMembers(h, d.sent, v, x, 0);
        if d2.ok then SendOne(h, d2.sent, EndObject(|x|)) else d2
    case _ => SendOne(h, sent, Accept(v)[0])
  }

  /** The loop over the elements from the `i`th on. */
  function VisitAll(h: Handler, sent: seq<Event>, v: Value, x: seq<Value>, i: nat): Delivery
    requires v == ArrayValue(x) && i <= |x|
    decreases v, 0, |x| - i
  {
    if i == |x| then Delivery(sent, true)
    else
      var d := Visit(h, sent, x[i]);
      if d.ok then VisitAll(h, d.sent, v, x, i + 1) else d
  }

  function VisitMembers(h: Handler, sent: seq<Event>, v: Value, x: seq<Member>, i: nat): Delivery
    requires v == ObjectValue(x) && i <= |x|
    decreases v, 0, |x| - i
  {
    if i == |x| then Delivery(sent, true)
    else
      var d := SendOne(h, sent, Key(x[i].name));
      if !d.ok then d
      else
        var d2 := Visit(h, d.sent, x[i].value);
        if d2.ok then VisitMembers(h, d2.sent, v, x, i + 1) else d2
  }

  /** Every handler is sent the events of the value in order, up to its first refusal. */
  lemma {:induction false} VisitDelivers(h: Handler, sent: seq<Event>, v: Value)
    ensures Visit(h, sent, v) == Deliver(h, sent, Accept(v))
    decreases v, 0
  {
    hide NumberEvent;
    match v
    case ArrayValue(x) =>
      OneDelivered(h, sent, StartArray);
      DeliverConcat(h, sent, [StartArray] + AcceptAll(x), [EndArray(|x|)]);
      DeliverConcat(h, sent, [StartArray], AcceptAll(x));
      var d := SendOne(h, sent, StartArray);
      if d.ok {
        VisitAllDelivers(h, d.sent, d.sent, v, x, 0);
        var d2 := Deliver(h, d.sent, AcceptAll(x));
        OneDelivered(h, d2.sent, EndArray(|x|));
      }
    case ObjectValue(x) =>
      OneDelivered(h, sent, StartObject);
      DeliverConcat(h, sent, [StartObject] + AcceptMembers(x), [EndObject(|x|)]);
      DeliverConcat(h, sent, [StartObject], AcceptMembers(x));
      var d := SendOne(h, sent, StartObject);
      if d.ok {
        VisitMembersDelivers(h, d.sent, d.sent, v, x, 0);
        var d2 := Deliver(h, d.sent, AcceptMembers(x));
        OneDelivered(h, d2.sent, EndObject(|x|));
      }
    case _ => OneDelivered(h, sent, Accept(v)[0]);
  }

  lemma OneDelivered(h: Handler, sent: seq<Event>, event: Event)
    ensures Deliver(h, sent, [event]) == SendOne(h, sent, event)
  {
    assert [event][1..] == [];
  }

  /** `sent` is what the handler has after the elements in front of the `i`th. */
  lemma {:induction false} VisitAllDelivers(h: Handler, s0: seq<Event>, sent: seq<Event>,
                                               v: Value, x: seq<Value>, i: nat)
    requires v == ArrayValue(x) && i <= |x| && Deliver(h, s0, AcceptAll(x[..i])) == Delivery(sent, true)
    ensures VisitAll(h, sent, v, x, i) == Deliver(h, s0, AcceptAll(x))
    decreases v, 0, |x| - i
  {
    hide Accept, Visit;
    if i == |x| {
      assert x[..i] == x;
    } else {
      VisitDelivers(h, sent, x[i]);
      assert x[..i + 1][..i] == x[..i];
      DeliverConcat(h, s0, AcceptAll(x[..i]), Accept(x[i]));
      var d := Visit(h, sent, x[i]);
      if d.ok {
        VisitAllDelivers(h, s0, d.sent, v, x, i + 1);
      } else {
        AllFrom(h, s0, x, i + 1);
      }
    }
  }

  /** A delivery that stopped within the first `i` elements stays as it is. */
  lemma {:induction false} AllFrom(h: Handler, s0: seq<Event>, x: seq<Value>, i: nat)
    requires i <= |x| && !Deliver(h, s0, AcceptAll(x[..i])).ok
    ensures Deliver(h, s0, AcceptAll(x)) == Deliver(h, s0, AcceptAll(x[..i]))
    decreases |x| - i
  {
    hide Accept;
    if i == |x| {
      assert x[..i] == x;
    } else {
      assert x[..i + 1][..i] == x[..i];
      DeliverConcat(h, s0, AcceptAll(x[..i]), Accept(x[i]));
      AllFrom(h, s0, x, i + 1);
    }
  }

  lemma {:induction false} VisitMembersDelivers(h: Handler, s0: seq<Event>, sent: seq<Event>,
                                                   v: Value, x: seq<Member>, i: nat)
    requires v == ObjectValue(x) && i <= |x| && Deliver(h, s0, AcceptMembers(x[..i])) == Delivery(sent, true)
    ensures VisitMembers(h, sent, v, x, i) == Deliver(h, s0, AcceptMembers(x))
    decreases v, 0, |x| - i
  {
    hide Accept, Visit;
    if i == |x| {
      assert x[..i] == x;
    } else {
      MemberDelivered(h, s0, sent, x, i);
      var d := SendOne(h, sent, Key(x[i].name));
      if d.ok {
        VisitDelivers(h, d.sent, x[i].value);
        var d2 := Visit(h, d.sent, x[i].value);
        if d2.ok {
          VisitMembersDelivers(h, s0, d2.sent, v, x, i + 1);
          return;
        }
      }
      MembersFrom(h, s0, x, i + 1);
    }
  }

  lemma MemberDelivered(h: Handler, s0: seq<Event>, sent: seq<Event>, x: seq<Member>, i: nat)
    requires i < |x| && Deliver(h, s0, AcceptMembers(x[..i])) == Delivery(sent, true)
    ensures var d := SendOne(h, sent, Key(x[i].name));
            Deliver(h, s0, AcceptMembers(x[..i + 1])) == if d.ok then Deliver(h, d.sent, Accept(x[i].value)) else d
  {
    hide Accept;
    assert x[..i + 1][..i] == x[..i];
    OneDelivered(h, sent, Key(x[i].name));
    DeliverConcat(h, sent, [Key(x[i].name)], Accept(x[i].value));
    DeliverConcat(h, s0, AcceptMembers(x[..i]), [Key(x[i].name)] + Accept(x[i].value));
  }

  lemma {:induction false} MembersFrom(h: Handler, s0: seq<Event>, x: seq<Member>, i: nat)
    requires i <= |x| && !Deliver(h, s0, AcceptMembers(x[..i])).ok
    ensures Deliver(h, s0, AcceptMembers(x)) == Deliver(h, s0, AcceptMembers(x[..i]))
    decreases |x| - i
  {
    hide Accept;
    if i == |x| {
      assert x[..i] == x;
    } else {
      assert x[..i + 1][..i] == x[..i];
      DeliverConcat(h, s0, AcceptMembers(x[..i]), [Key(x[i].name)] + Accept(x[i].value));
      MembersFrom(h, s0, x, i + 1);
    }
  }

  // The document

  class GenericDocument {
    var root: Value
    var stack: seq<Value>

    constructor ()
      ensures root == NullValue && stack == []
    {
      root, stack := NullValue, [];
    }

    method Push(v: Value)
      modifies this`stack
      ensures stack == old(stack) + [v]
    {
      stack := stack + [v];
    }

    method Pop(n: nat) returns (cells: seq<Value>)
      requires n <= |stack|
      modifies this`stack
      ensures old(stack) == stack + cells && |cells| == n
    {
      cells := stack[|stack| - n..];
      stack := stack[..|stack| - n];
    }

    method EndObject(memberCount: nat)
      requires Handled(stack, Event.EndObject(memberCount)).Some?
      modifies this`stack
      ensures Some(stack) == Handled(old(stack), Event.EndObject(memberCount))
    {
      var cells := Pop(2 * memberCount);
      assert cells == old(stack)[|old(stack)| - 2 * memberCount..];
      assert stack[..|stack| - 1] == old(stack)[..|stack| - 1];
      stack := stack[..|stack| - 1] + [ObjectValue(MembersOf(cells))];
    }

    method EndArray(elementCount: nat)
      requires Handled(stack, Event.EndArray(elementCount)).Some?
      modifies this`stack
      ensures Some(stack) == Handled(old(stack), Event.EndArray(elementCount))
    {
      var cells := Pop(elementCount);
      assert cells == old(stack)[|old(stack)| - elementCount..];
      assert stack[..|stack| - 1] == old(stack)[..|stack| - 1];
      stack := stack[..|stack| - 1] + [ArrayValue(cells)];
    }

    /** The handler functions. */
    method Handle(event: Event)
      requires Handled(stack, event).Some?
      modifies this`stack
      ensures Some(stack) == Handled(old(stack), event)
    {
      match event
      case Null => Push(NullValue);
      case Bool(b) => Push(BoolValue(b));
      case Int(i) => Push(NumberValue(OfInt(i)));
      case Uint(i) => Push(NumberValue(OfUint(i)));
      case Int64(i) => Push(NumberValue(OfInt64(i)));
      case Uint64(i) => Push(NumberValue(OfUint64(i)));
      case Double(d) => Push(NumberValue(OfDouble(d)));
      case RawNumber(s) => Push(StringValue(s));
      case String(s) => Push(StringValue(s));
      case Key(s) => Push(StringValue(s));
      case StartObject => Push(ObjectValue([]));
      case StartArray => Push(ArrayValue([]));
      case EndObject(n) => EndObject(n);
      case EndArray(n) => EndArray(n);
    }

    /** `Populate`: take the events of a generator, and its value if it succeeded. */
    method Populate(events: seq<Event>, ok: bool)
      requires stack == [] && ReplayOf(events).Replay? && (ok ==> ReplayOf(events) == Replay([], true))
      modifies this
      ensures stack == []
      ensures if ok then WellMade(root) && NoNumberAny(root) && Accept(root) == NormalAll(events)
              else root == old(root)
    {
      hide Handled, Accept, Shape, Log, WellMade, NoNumberAny;
      for i := 0 to |events|
        invariant Some(stack) == Fed([], events[..i]) && root == old(root)
      {
        assert events[..i + 1] == events[..i] + [events[i]];
        PrefixReplays(events, i + 1);
        StackStandsForEvents(events[..i + 1]);
        FedSnoc([], events[..i], events[i]);
        Handle(events[i]);
      }
      assert events[..|events|] == events;
      if ok {
        BalancedBuildsOne(events);
        assert |stack| == 1;
        var cells := Pop(1);
        root := cells[0];
      }
      stack := [];
    }

    /** `ParseStream`: with a document as its handler, the reader leaves the value whose
        events it has sent, or an error and the old value. */
    method ParseStream(reader: Reader, iterative: bool)
      requires reader.Steady() && reader.St() == Recursive.START && reader.stack == [] && stack == []
      requires forall events :: reader.e.handler(events)
      requires Overrun.Overruns(reader.e) ==> reader.buf.Length >= |reader.e.text| + 3
      modifies this, reader, reader.buf
      ensures var r := if iterative then Iterative.Parse(reader.e) else Recursive.Parse(reader.e);
              && reader.result == r.error
              && if r.Ok() then WellMade(root) && NoNumberAny(root) && Accept(root) == NormalAll(r.events)
                 else root == old(root)
    {
      hide Accept, WellMade, NoNumberAny, NormalAll, Iterative.Parse, Recursive.Parse, ReplayOf, Overrun.Overruns;
      EventsBalanced(reader.e);
      reader.Parse(iterative);
      Populate(reader.events, reader.result.None?);
    }
  }

  lemma {:induction false} PrefixReplays(events: seq<Event>, i: nat)
    requires i <= |events| && ReplayOf(events).Replay?
    ensures ReplayOf(events[..i]).Replay?
    decreases |events|
  {
    if i == |events| {
      assert events[..i] == events;
    } else {
      var before := events[..|events| - 1];
      NeverIllAgain(ReplayOf(before), events[|events| - 1]);
      PrefixReplays(before, i);
      assert before[..i] == events[..i];
    }
  }
}
