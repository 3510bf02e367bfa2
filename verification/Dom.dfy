/** The values of `GenericValue` (document.h). */
module Values {
  import opened Bytes
  import opened Sax

  /** The eight bytes of a number: an integer, or a double, which is kept as the
      literal that it was read from. */
  datatype Data = Bits(u64: uint64) | Real(literal: Text)

  /** A number with its type flags. */
  datatype Number = Number(isInt: bool, isUint: bool, isInt64: bool, isUint64: bool, isDouble: bool, data: Data)

  datatype Value =
    | NullValue
    | BoolValue(b: bool)
    | StringValue(s: Text)
    | NumberValue(n: Number)
    | ArrayValue(elements: seq<Value>)
    | ObjectValue(members: seq<Member>)

  datatype Member = Member(name: Text, value: Value)

  const TWO31: int := 0x8000_0000
  const TWO32: int := 0x1_0000_0000
  const TWO63: int := 0x8000_0000_0000_0000
  const TWO64: int := 0x1_0000_0000_0000_0000

  /** The bit pattern of a signed number. */
  function Pattern(i: int): uint64 {
    i % TWO64
  }

  /** Is the bit set that is worth `weight`? */
  predicate HasBit(u: nat, weight: nat)
    requires weight > 0
  {
    u / weight % 2 == 1
  }

  /** Is any bit set that is worth `weight` or more? */
  predicate HasBitsFrom(u: nat, weight: nat)
    requires weight > 0
  {
    u / weight != 0
  }

  // The constructors for numbers

  function OfInt(i: int32): Number {
    Number(true, i >= 0, true, i >= 0, false, Bits(Pattern(i)))
  }

  function OfUint(u: uint32): Number {
    var small := !HasBit(u, TWO31);
    Number(small, true, true, true, false, Bits(u))
  }

  function OfInt64(i: int64): Number {
    var u := Pattern(i);
    if i >= 0 then Number(!HasBitsFrom(u, TWO31), !HasBitsFrom(u, TWO32), true, true, false, Bits(u))
    else Number(i >= -TWO31, false, true, false, false, Bits(u))
  }

  function OfUint64(u: uint64): Number {
    Number(!HasBitsFrom(u, TWO31), !HasBitsFrom(u, TWO32), !HasBit(u, TWO63), true, false, Bits(u))
  }

  function OfDouble(literal: Text): Number {
    Number(false, false, false, false, true, Real(literal))
  }

  /** `GenericValue(kNumberType)`: every flag, and all bits zero. */
  const NUMBER_ANY: Number := Number(true, true, true, true, true, Bits(0))

  /** What a number is taken to be from its value alone. */
  function Canonical(v: int): Number
    requires -TWO63 <= v < TWO64
  {
    Number(-TWO31 <= v < TWO31, 0 <= v < TWO32, v < TWO63, 0 <= v, false, Bits(Pattern(v)))
  }

  /** The type flags depend on the value only, not on the constructor that built it. */
  lemma ConstructorsAgree(v: int)
    ensures -TWO31 <= v < TWO31 ==> OfInt(v) == Canonical(v)
    ensures 0 <= v < TWO32 ==> OfUint(v) == Canonical(v)
    ensures -TWO63 <= v < TWO63 ==> OfInt64(v) == Canonical(v)
    ensures 0 <= v < TWO64 ==> OfUint64(v) == Canonical(v)
  {
  }

  /** `GetInt`: the low 32 bits, signed. */
  function Low32Signed(u: uint64): int32 {
    var w := u % TWO32;
    if w < TWO31 then w else w - TWO32
  }

  function Signed64(u: uint64): int64 {
    if u < TWO63 then u else u - TWO64
  }

  /** The literal of the double whose bits are all zero. */
  const ZERO: Text := [0x30, 0x2E, 0x30]

  /** The number branch of `Accept`. */
  function NumberEvent(n: Number): Event {
    var u := if n.data.Bits? then n.data.u64 else 0;
    if n.isDouble then Double(if n.data.Real? then n.data.literal else ZERO)
    else if n.isInt then Int(Low32Signed(u))
    else if n.isUint then Uint(u % TWO32)
    else if n.isInt64 then Int64(Signed64(u))
    else Uint64(u)
  }

  /** The event of an integer is the narrowest that holds it. */
  function NarrowestEvent(v: int): Event
    requires -TWO63 <= v < TWO64
  {
    if -TWO31 <= v < TWO31 then Int(v)
    else if 0 <= v < TWO32 then Uint(v)
    else if v < TWO63 then Int64(v)
    else Uint64(v)
  }

  lemma CanonicalEvent(v: int)
    requires -TWO63 <= v < TWO64
    ensures NumberEvent(Canonical(v)) == NarrowestEvent(v)
  {
  }

  /** The numbers that the constructors and setters make. */
  ghost predicate Made(n: Number) {
    || n == NUMBER_ANY
    || (n.data.Real? && n == OfDouble(n.data.literal))
    || (n.data.Bits? && n == Canonical(IntegerOf(n)))
  }

  /** The value of an integer, by its flags. */
  function IntegerOf(n: Number): (v: int)
    ensures -TWO63 <= v < TWO64
  {
    var u := if n.data.Bits? then n.data.u64 else 0;
    if n.isUint64 then u else Signed64(u)
  }

  lemma CanonicalMade(v: int)
    requires -TWO63 <= v < TWO64
    ensures IntegerOf(Canonical(v)) == v && Made(Canonical(v))
  {
  }

  ghost predicate WellMade(v: Value) {
    match v
    case NumberValue(n) => Made(n)
    case ArrayValue(x) => forall i :: 0 <= i < |x| ==> WellMade(x[i])
    case ObjectValue(x) => forall i :: 0 <= i < |x| ==> WellMade(x[i].value)
    case _ => true
  }

  // `Accept`

  function Accept(v: Value): (events: seq<Event>)
    ensures events != []
    decreases v
  {
    match v
    case NullValue => [Null]
    case BoolValue(b) => [Bool(b)]
    case StringValue(s) => [String(s)]
    case NumberValue(n) => [NumberEvent(n)]
    case ArrayValue(x) => [StartArray] + AcceptAll(x) + [EndArray(|x|)]
    case ObjectValue(x) => [StartObject] + AcceptMembers(x) + [EndObject(|x|)]
  }

  function AcceptAll(x: seq<Value>): seq<Event>
    decreases x
  {
    if x == [] then [] else AcceptAll(x[..|x| - 1]) + Accept(x[|x| - 1])
  }

  function AcceptMembers(x: seq<Member>): seq<Event>
    decreases x
  {
    if x == [] then []
    else
      var last := x[|x| - 1];
      AcceptMembers(x[..|x| - 1]) + ([Key(last.name)] + Accept(last.value))
  }
}

/** `GenericDocument` as a handler: a stack of values that the events build up. */
module Building {
  import opened Bytes
  import opened Sax
  import opened Values
  import opened History

  /** Do these cells hold names and values in turn? */
  predicate ArePairs(cells: seq<Value>) {
    |cells| % 2 == 0 && NamesHeld(cells)
  }

  predicate NamesHeld(cells: seq<Value>) {
    forall i :: 0 <= i < |cells| && i % 2 == 0 ==> cells[i].StringValue?
  }

  function MembersOf(cells: seq<Value>): (members: seq<Member>)
    requires ArePairs(cells)
    ensures |members| * 2 == |cells|
  {
    seq(|cells| / 2, i requires 0 <= i < |cells| / 2 => Member(cells[2 * i].s, cells[2 * i + 1]))
  }

  /** The stack after one event; none where the source pops what is not there. */
  function Handled(stack: seq<Value>, event: Event): Option<seq<Value>> {
    match event
    case Null => Some(stack + [NullValue])
    case Bool(b) => Some(stack + [BoolValue(b)])
    case Int(i) => Some(stack + [NumberValue(OfInt(i))])
    case Uint(u) => Some(stack + [NumberValue(OfUint(u))])
    case Int64(i) => Some(stack + [NumberValue(OfInt64(i))])
    case Uint64(u) => Some(stack + [NumberValue(OfUint64(u))])
    case Double(d) => Some(stack + [NumberValue(OfDouble(d))])
    case RawNumber(s) => Some(stack + [StringValue(s)])
    case String(s) => Some(stack + [StringValue(s)])
    case Key(s) => Some(stack + [StringValue(s)])
    case StartObject => Some(stack + [ObjectValue([])])
    case StartArray => Some(stack + [ArrayValue([])])
    case EndObject(n) =>
      var k := |stack| - 2 * n;
      if k < 1 || stack[k - 1] != ObjectValue([]) || !ArePairs(stack[k..]) then None
      else Some(stack[..k - 1] + [ObjectValue(MembersOf(stack[k..]))])
    case EndArray(n) =>
      var k := |stack| - n;
      if k < 1 || stack[k - 1] != ArrayValue([]) then None
      else Some(stack[..k - 1] + [ArrayValue(stack[k..])])
  }

  function Fed(stack: seq<Value>, events: seq<Event>): Option<seq<Value>> {
    if events == [] then Some(stack)
    else match Fed(stack, events[..|events| - 1])
      case None => None
      case Some(s) => Handled(s, events[|events| - 1])
  }

  lemma FedSnoc(stack: seq<Value>, events: seq<Event>, event: Event)
    ensures Fed(stack, events + [event]) ==
            match Fed(stack, events) case None => None case Some(s) => Handled(s, event)
  {
    assert (events + [event])[..|events|] == events;
  }

  lemma {:induction false} FedConcat(stack: seq<Value>, a: seq<Event>, b: seq<Event>)
    ensures Fed(stack, a + b) == match Fed(stack, a) case None => None case Some(s) => Fed(s, b)
    decreases |b|
  {
    if b == [] {
      assert a + b == a;
    } else {
      var c, last := b[..|b| - 1], b[|b| - 1];
      assert a + b == (a + c) + [last];
      FedConcat(stack, a, c);
      FedSnoc(stack, a + c, last);
      if Fed(stack, a).Some? {
        assert b == c + [last];
        FedSnoc(Fed(stack, a).value, c, last);
      }
    }
  }

  // Taking a value apart and building it again

  ghost predicate NoNumberAny(v: Value)
    decreases v
  {
    match v
    case NumberValue(n) => n != NUMBER_ANY
    case ArrayValue(x) => forall i :: 0 <= i < |x| ==> NoNumberAny(x[i])
    case ObjectValue(x) => forall i :: 0 <= i < |x| ==> NoNumberAny(x[i].value)
    case _ => true
  }

  /** A value as `Accept` makes a document see it: a number with every flag set has
      become the double 0. */
  function Rebuilt(v: Value): Value
    decreases v
  {
    match v
    case NumberValue(n) => if n == NUMBER_ANY then NumberValue(OfDouble(ZERO)) else v
    case ArrayValue(x) => ArrayValue(seq(|x|, i requires 0 <= i < |x| => Rebuilt(x[i])))
    case ObjectValue(x) => ObjectValue(seq(|x|, i requires 0 <= i < |x| => Member(x[i].name, Rebuilt(x[i].value))))
    case _ => v
  }

  lemma NumberRebuilt(stack: seq<Value>, n: Number)
    requires Made(n)
    ensures Handled(stack, NumberEvent(n)) == Some(stack + [Rebuilt(NumberValue(n))])
  {
    if n.data.Bits? && n != NUMBER_ANY {
      var v := IntegerOf(n);
      CanonicalEvent(v);
      ConstructorsAgree(v);
    }
  }

  function RebuiltAll(x: seq<Value>): (r: seq<Value>)
    ensures |r| == |x|
  {
    seq(|x|, i requires 0 <= i < |x| => Rebuilt(x[i]))
  }

  /** The cells that the members of an object take up while it is built. */
  function RebuiltCells(x: seq<Member>): (r: seq<Value>)
    ensures |r| == 2 * |x|
  {
    if x == [] then []
    else RebuiltCells(x[..|x| - 1]) + [StringValue(x[|x| - 1].name), Rebuilt(x[|x| - 1].value)]
  }

  /** Feeding a value's own events to a document pushes that value. */
  lemma {:induction false} AcceptBuilds(stack: seq<Value>, v: Value)
    requires WellMade(v)
    ensures Fed(stack, Accept(v)) == Some(stack + [Rebuilt(v)])
    decreases v
  {
    hide Handled, NumberEvent, Made;
    match v
    case ArrayValue(x) =>
      var s := stack + [ArrayValue([])];
      OpenFed(stack, false);
      AllBuild(s, x);
      FedConcat(stack, [StartArray], AcceptAll(x));
      FedSnoc(stack, [StartArray] + AcceptAll(x), EndArray(|x|));
      ArrayClosed(stack, RebuiltAll(x));
    case ObjectValue(x) =>
      var s := stack + [ObjectValue([])];
      OpenFed(stack, true);
      MembersBuild(s, x);
      FedConcat(stack, [StartObject], AcceptMembers(x));
      FedSnoc(stack, [StartObject] + AcceptMembers(x), EndObject(|x|));
      CellsAreMembers(x);
      ObjectClosed(stack, RebuiltCells(x));
    case NumberValue(n) =>
      NumberRebuilt(stack, n);
      OneFed(stack, NumberEvent(n));
    case _ =>
      OneFed(stack, Accept(v)[0]);
      ScalarHandled(stack, v);
  }

  lemma OneFed(stack: seq<Value>, event: Event)
    ensures Fed(stack, [event]) == Handled(stack, event)
  {
    FedSnoc(stack, [], event);
    assert [] + [event] == [event];
  }

  lemma OpenFed(stack: seq<Value>, isObject: bool)
    ensures Fed(stack, [if isObject then StartObject else StartArray]) ==
            Some(stack + [if isObject then ObjectValue([]) else ArrayValue([])])
  {
    OneFed(stack, if isObject then StartObject else StartArray);
  }

  lemma ScalarHandled(stack: seq<Value>, v: Value)
    requires v.NullValue? || v.BoolValue? || v.StringValue?
    ensures Handled(stack, Accept(v)[0]) == Some(stack + [v])
  {
    hide ArePairs, MembersOf;
    match v
    case NullValue =>
    case BoolValue(b) => assert Accept(v) == [Bool(b)];
    case StringValue(t) => assert Accept(v) == [String(t)];
  }

  lemma ArrayClosed(stack: seq<Value>, cells: seq<Value>)
    ensures Handled(stack + [ArrayValue([])] + cells, EndArray(|cells|)) == Some(stack + [ArrayValue(cells)])
  {
    var s := stack + [ArrayValue([])] + cells;
    var k := |stack| + 1;
    assert s[k..] == cells && s[..k - 1] == stack && s[k - 1] == ArrayValue([]);
  }

  lemma ObjectClosed(stack: seq<Value>, cells: seq<Value>)
    requires ArePairs(cells)
    ensures Handled(stack + [ObjectValue([])] + cells, EndObject(|cells| / 2)) ==
            Some(stack + [ObjectValue(MembersOf(cells))])
  {
    var s := stack + [ObjectValue([])] + cells;
    var k := |stack| + 1;
    assert s[k..] == cells && s[..k - 1] == stack && s[k - 1] == ObjectValue([]);
  }

  lemma {:induction false} AllBuild(stack: seq<Value>, x: seq<Value>)
    requires forall i :: 0 <= i < |x| ==> WellMade(x[i])
    ensures Fed(stack, AcceptAll(x)) == Some(stack + RebuiltAll(x))
    decreases x
  {
    hide Rebuilt, Accept, Handled;
    if x == [] {
      assert stack + RebuiltAll(x) == stack;
    } else {
      var y, v := x[..|x| - 1], x[|x| - 1];
      AllBuild(stack, y);
      AcceptBuilds(stack + RebuiltAll(y), v);
      FedConcat(stack, AcceptAll(y), Accept(v));
      assert stack + RebuiltAll(y) + [Rebuilt(v)] == stack + RebuiltAll(x);
    }
  }

  lemma {:induction false} MembersBuild(stack: seq<Value>, x: seq<Member>)
    requires forall i :: 0 <= i < |x| ==> WellMade(x[i].value)
    ensures Fed(stack, AcceptMembers(x)) == Some(stack + RebuiltCells(x))
    decreases x
  {
    hide Rebuilt, Accept;
    if x == [] {
      assert stack + RebuiltCells(x) == stack;
    } else {
      var y, m := x[..|x| - 1], x[|x| - 1];
      var s := stack + RebuiltCells(y);
      var t := s + [StringValue(m.name)];
      MembersBuild(stack, y);
      OneFed(s, Key(m.name));
      AcceptBuilds(t, m.value);
      FedConcat(s, [Key(m.name)], Accept(m.value));
      FedConcat(stack, AcceptMembers(y), [Key(m.name)] + Accept(m.value));
      assert Fed(s, [Key(m.name)]) == Some(t);
      assert Fed(s, [Key(m.name)] + Accept(m.value)) == Some(t + [Rebuilt(m.value)]);
      assert t + [Rebuilt(m.value)] == stack + RebuiltCells(x);
    }
  }

  lemma {:induction false} CellsAreMembers(x: seq<Member>)
    ensures ArePairs(RebuiltCells(x)) && ObjectValue(MembersOf(RebuiltCells(x))) == Rebuilt(ObjectValue(x))
    decreases |x|
  {
    var cells := RebuiltCells(x);
    forall i | 0 <= i < |x|
      ensures cells[2 * i] == StringValue(x[i].name) && cells[2 * i + 1] == Rebuilt(x[i].value)
    {
      CellAt(x, i);
    }
    forall j | 0 <= j < |cells| && j % 2 == 0 ensures cells[j].StringValue? { CellAt(x, j / 2); }
    assert MembersOf(cells) == Rebuilt(ObjectValue(x)).members;
  }

  lemma {:induction false} CellAt(x: seq<Member>, i: nat)
    requires i < |x|
    ensures RebuiltCells(x)[2 * i] == StringValue(x[i].name)
    ensures RebuiltCells(x)[2 * i + 1] == Rebuilt(x[i].value)
    decreases |x|
  {
    if i < |x| - 1 { CellAt(x[..|x| - 1], i); }
  }

  /** Deep copy by `Accept` into a document gives the same tree if and only if no
      number inside carries `kNumberAnyFlag`. */
  lemma {:induction false} RebuiltSame(v: Value)
    ensures Rebuilt(v) == v <==> NoNumberAny(v)
    decreases v
  {
    match v
    case ArrayValue(x) =>
      forall i | 0 <= i < |x| ensures Rebuilt(x[i]) == x[i] <==> NoNumberAny(x[i]) { RebuiltSame(x[i]); }
      if Rebuilt(v) == v {
        forall i | 0 <= i < |x| ensures NoNumberAny(x[i]) { assert Rebuilt(v).elements[i] == Rebuilt(x[i]); }
      }
    case ObjectValue(x) =>
      forall i | 0 <= i < |x| ensures Rebuilt(x[i].value) == x[i].value <==> NoNumberAny(x[i].value) {
        RebuiltSame(x[i].value);
      }
      if Rebuilt(v) == v {
        forall i | 0 <= i < |x| ensures NoNumberAny(x[i].value) {
          assert Rebuilt(v).members[i] == Member(x[i].name, Rebuilt(x[i].value));
        }
      }
    case _ =>
  }

  /** The copy constructor: containers go through a document, anything else is copied
      as it is. */
  function DeepCopy(v: Value): Option<Value> {
    if v.ArrayValue? || v.ObjectValue? then
      match Fed([], Accept(v))
      case None => None
      case Some(s) => if |s| == 1 then Some(s[0]) else None
    else Some(v)
  }

  lemma DeepCopyIdentical(v: Value)
    requires WellMade(v)
    ensures DeepCopy(v).Some?
    ensures DeepCopy(v) == Some(v) <==> NoNumberAny(v) || !(v.ArrayValue? || v.ObjectValue?)
  {
    AcceptBuilds([], v);
    RebuiltSame(v);
    assert [] + [Rebuilt(v)] == [Rebuilt(v)];
  }
}
