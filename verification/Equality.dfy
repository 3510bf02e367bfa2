/** `GenericValue::operator==` (document.h). */
module Equality {
  import opened Bytes
  import opened Sax
  import opened Values

  /** How two numbers compare when at least one is a double. */
  type DoubleEq = (Number, Number) -> bool

  /** `FindMember`: the first member with this name, or the end. */
  function Find(x: seq<Member>, name: Text): (i: nat)
    ensures i <= |x|
    ensures i < |x| ==> x[i].name == name
    ensures forall j :: 0 <= j < i ==> x[j].name != name
    decreases |x|
  {
    if x == [] then 0 else if x[0].name == name then 0 else 1 + Find(x[1..], name)
  }

  /** The tag that `GetType` compares; false and true are types of their own. */
  function TypeTag(v: Value): nat {
    match v
    case NullValue => 0
    case BoolValue(b) => if b then 2 else 1
    case ObjectValue(_) => 3
    case ArrayValue(_) => 4
    case StringValue(_) => 5
    case NumberValue(_) => 6
  }

  function Bits64(n: Number): uint64 {
    if n.data.Bits? then n.data.u64 else 0
  }

  predicate Equal(deq: DoubleEq, a: Value, b: Value)
    decreases a, 0
  {
    TypeTag(a) == TypeTag(b) &&
    match a
    case ObjectValue(x) =>
      && |x| == |b.members|
      && forall i :: 0 <= i < |x| ==> EqualMember(deq, x[i], b.members)
    case ArrayValue(x) =>
      && |x| == |b.elements|
      && forall i :: 0 <= i < |x| ==> Equal(deq, x[i], b.elements[i])
    case StringValue(s) => s == b.s
    case NumberValue(n) => if n.isDouble || b.n.isDouble then deq(n, b.n) else Bits64(n) == Bits64(b.n)
    case _ => true
  }

  /** One turn of the loop over the members on the left. */
  predicate EqualMember(deq: DoubleEq, m: Member, y: seq<Member>)
    decreases m, 1
  {
    var j := Find(y, m.name);
    j < |y| && Equal(deq, m.value, y[j].value)
  }

  // What a value means, apart from the order of members

  datatype Meaning =
    | NullMeaning
    | BoolMeaning(b: bool)
    | StringMeaning(s: Text)
    | NumberMeaning(u64: uint64)
    | ArrayMeaning(elements: seq<Meaning>)
    | ObjectMeaning(members: map<Text, Meaning>)

  function MeaningOf(v: Value): Meaning
    decreases v, 0
  {
    match v
    case NullValue => NullMeaning
    case BoolValue(b) => BoolMeaning(b)
    case StringValue(s) => StringMeaning(s)
    case NumberValue(n) => NumberMeaning(Bits64(n))
    case ArrayValue(x) => ArrayMeaning(seq(|x|, i requires 0 <= i < |x| => MeaningOf(x[i])))
    case ObjectValue(x) => ObjectMeaning(MapOf(x))
  }

  function MapOf(x: seq<Member>): map<Text, Meaning>
    decreases x, 0
  {
    if x == [] then map[]
    else MapOf(x[..|x| - 1])[x[|x| - 1].name := MeaningOf(x[|x| - 1].value)]
  }

  predicate Distinct(x: seq<Member>) {
    forall i, j :: 0 <= i < j < |x| ==> x[i].name != x[j].name
  }

  predicate NoDoubles(v: Value)
    decreases v
  {
    match v
    case NumberValue(n) => !n.isDouble
    case ArrayValue(x) => forall i :: 0 <= i < |x| ==> NoDoubles(x[i])
    case ObjectValue(x) => forall i :: 0 <= i < |x| ==> NoDoubles(x[i].value)
    case _ => true
  }

  /** No object anywhere has two members of one name, and no number is a double. */
  predicate Plain(v: Value)
    decreases v
  {
    match v
    case NumberValue(n) => !n.isDouble
    case ArrayValue(x) => forall i :: 0 <= i < |x| ==> Plain(x[i])
    case ObjectValue(x) => Distinct(x) && forall i :: 0 <= i < |x| ==> Plain(x[i].value)
    case _ => true
  }

  function Names(x: seq<Member>): set<Text> {
    set i | 0 <= i < |x| :: x[i].name
  }

  lemma NamesSnoc(x: seq<Member>)
    requires x != []
    ensures Names(x) == Names(x[..|x| - 1]) + {x[|x| - 1].name}
  {
    var y := x[..|x| - 1];
    forall n ensures n in Names(x) <==> n in Names(y) + {x[|x| - 1].name} {
      if n in Names(x) {
        var i :| 0 <= i < |x| && x[i].name == n;
        if i < |x| - 1 { assert y[i].name == n; }
      }
      if n in Names(y) {
        var i :| 0 <= i < |y| && y[i].name == n;
        assert x[i].name == n;
      }
    }
  }

  lemma DistinctSnoc(x: seq<Member>)
    requires x != []
    ensures Distinct(x) <==> Distinct(x[..|x| - 1]) && x[|x| - 1].name !in Names(x[..|x| - 1])
  {
    var y, last := x[..|x| - 1], x[|x| - 1].name;
    if Distinct(y) && last !in Names(y) {
      forall i, j | 0 <= i < j < |x| ensures x[i].name != x[j].name {
        assert x[i] == y[i] && y[i].name in Names(y);
      }
    } else if last in Names(y) {
      var i :| 0 <= i < |y| && y[i].name == last;
      assert x[i].name == last;
    }
  }

  /** Names are distinct if and only if there are as many as members. */
  lemma {:induction false} DistinctCount(x: seq<Member>)
    ensures |Names(x)| <= |x| && (|Names(x)| == |x| <==> Distinct(x))
    decreases |x|
  {
    if x != [] {
      hide Names, Distinct;
      NamesSnoc(x);
      DistinctSnoc(x);
      DistinctCount(x[..|x| - 1]);
    }
  }

  /** A subset as large as the whole is the whole. */
  lemma SubsetAll<T>(a: set<T>, b: set<T>)
    requires a <= b && |a| >= |b|
    ensures a == b
  {
    assert |b - a| == |b| - |a|;
  }

  lemma {:induction false} MapGet(x: seq<Member>)
    ensures MapOf(x).Keys == Names(x)
    ensures Distinct(x) ==>
              forall i :: 0 <= i < |x| ==> x[i].name in MapOf(x) && MapOf(x)[x[i].name] == MeaningOf(x[i].value)
    decreases |x|
  {
    hide MeaningOf;
    if x != [] {
      var y := x[..|x| - 1];
      NamesSnoc(x);
      MapGet(y);
      if Distinct(x) {
        forall i | 0 <= i < |x| ensures x[i].name in MapOf(x) && MapOf(x)[x[i].name] == MeaningOf(x[i].value) {
          if i < |x| - 1 { assert y[i] == x[i]; }
        }
      }
    }
  }

  /** A name that is there is found, at its first place. */
  lemma FindsName(y: seq<Member>, k: nat)
    requires k < |y|
    ensures Find(y, y[k].name) <= k
  {
  }

  /** With distinct names, the position of a name is the only one. */
  lemma FindOnly(y: seq<Member>, j: nat)
    requires Distinct(y) && j < |y|
    ensures Find(y, y[j].name) == j
  {
  }

  /** As many members on both sides, names distinct on the left and each found on the
      right: the names are the same, and distinct on the right too. */
  lemma Pigeonhole(x: seq<Member>, y: seq<Member>)
    requires Distinct(x) && |x| == |y| && forall i :: 0 <= i < |x| ==> Find(y, x[i].name) < |y|
    ensures Names(x) == Names(y) && Distinct(y)
  {
    DistinctCount(x);
    DistinctCount(y);
    forall n | n in Names(x) ensures n in Names(y) {
      var i :| 0 <= i < |x| && x[i].name == n;
      assert y[Find(y, n)].name == n;
    }
    SubsetAll(Names(x), Names(y));
  }

  /** A value without duplicate names or doubles equals another one without doubles
      exactly when that one has no duplicates either and means the same. */
  lemma {:induction false} EqualIsMeaning(deq: DoubleEq, a: Value, b: Value)
    requires Plain(a) && NoDoubles(b)
    ensures Equal(deq, a, b) <==> Plain(b) && MeaningOf(a) == MeaningOf(b)
    decreases a
  {
    if TypeTag(a) == TypeTag(b) {
      match a
      case ObjectValue(x) => ObjectsMeaning(deq, a, b, x, b.members);
      case ArrayValue(x) => ArraysMeaning(deq, a, b, x, b.elements);
      case _ =>
    }
  }

  lemma {:induction false} ArraysMeaning(deq: DoubleEq, a: Value, b: Value, x: seq<Value>, y: seq<Value>)
    requires Plain(a) && NoDoubles(b) && a == ArrayValue(x) && b == ArrayValue(y)
    ensures Equal(deq, a, b) <==> Plain(b) && MeaningOf(a) == MeaningOf(b)
    decreases a, 0
  {
    if |x| == |y| {
      forall i | 0 <= i < |x|
        ensures Equal(deq, x[i], y[i]) <==> Plain(y[i]) && MeaningOf(x[i]) == MeaningOf(y[i])
      {
        EqualIsMeaning(deq, x[i], y[i]);
      }
      if MeaningOf(a) == MeaningOf(b) {
        forall i | 0 <= i < |x| ensures MeaningOf(x[i]) == MeaningOf(y[i]) {
          assert MeaningOf(a).elements[i] == MeaningOf(b).elements[i];
        }
      }
    }
  }

  lemma {:induction false} ObjectsMeaning(deq: DoubleEq, a: Value, b: Value, x: seq<Member>, y: seq<Member>)
    requires Plain(a) && NoDoubles(b) && a == ObjectValue(x) && b == ObjectValue(y)
    ensures Equal(deq, a, b) <==> Plain(b) && MeaningOf(a) == MeaningOf(b)
    decreases a, 0
  {
    hide MapOf;
    MapGet(x);
    MapGet(y);
    DistinctCount(x);
    DistinctCount(y);
    forall i, j | 0 <= i < |x| && 0 <= j < |y|
      ensures Equal(deq, x[i].value, y[j].value)
              <==> Plain(y[j].value) && MeaningOf(x[i].value) == MeaningOf(y[j].value)
    {
      EqualIsMeaning(deq, x[i].value, y[j].value);
    }
    if Equal(deq, a, b) {
      MembersAlike(deq, x, y);
    } else if Plain(b) && MeaningOf(a) == MeaningOf(b) {
      MembersFound(deq, x, y);
    }
  }

  /** Equal objects have the same map. */
  lemma MembersAlike(deq: DoubleEq, x: seq<Member>, y: seq<Member>)
    requires Distinct(x) && |x| == |y| && forall i :: 0 <= i < |x| ==> EqualMember(deq, x[i], y)
    requires forall i, j :: 0 <= i < |x| && 0 <= j < |y| ==>
               (Equal(deq, x[i].value, y[j].value)
                <==> Plain(y[j].value) && MeaningOf(x[i].value) == MeaningOf(y[j].value))
    ensures Distinct(y) && MapOf(x) == MapOf(y) && forall j :: 0 <= j < |y| ==> Plain(y[j].value)
  {
    hide MapOf, Equal, MeaningOf, Plain, Distinct, Find;
    Pigeonhole(x, y);
    MapGet(x);
    MapGet(y);
    forall j | 0 <= j < |y|
      ensures Plain(y[j].value) && y[j].name in MapOf(x) && MapOf(x)[y[j].name] == MeaningOf(y[j].value)
    {
      assert y[j].name in Names(x);
      var i :| 0 <= i < |x| && x[i].name == y[j].name;
      assert EqualMember(deq, x[i], y);
      FindOnly(y, j);
    }
    SameMap(MapOf(x), y);
  }

  /** A map with exactly the members of `y` in it is the map of `y`. */
  lemma SameMap(m: map<Text, Meaning>, y: seq<Member>)
    requires Distinct(y) && m.Keys == Names(y)
    requires forall j :: 0 <= j < |y| ==> y[j].name in m && m[y[j].name] == MeaningOf(y[j].value)
    ensures m == MapOf(y)
  {
    hide MapOf, MeaningOf, Distinct;
    MapGet(y);
    forall n | n in m ensures m[n] == MapOf(y)[n] {
      var j :| 0 <= j < |y| && y[j].name == n;
    }
  }

  /** Objects with the same map are equal: the lookup loop in one direction and the
      size check suffice. */
  lemma MembersFound(deq: DoubleEq, x: seq<Member>, y: seq<Member>)
    requires Distinct(x) && Distinct(y) && MapOf(x) == MapOf(y) && forall j :: 0 <= j < |y| ==> Plain(y[j].value)
    requires forall i, j :: 0 <= i < |x| && 0 <= j < |y| ==>
               (Equal(deq, x[i].value, y[j].value)
                <==> Plain(y[j].value) && MeaningOf(x[i].value) == MeaningOf(y[j].value))
    ensures |x| == |y| && forall i :: 0 <= i < |x| ==> EqualMember(deq, x[i], y)
  {
    hide MapOf, Equal, MeaningOf, Plain;
    MapGet(x);
    MapGet(y);
    DistinctCount(x);
    DistinctCount(y);
    forall i | 0 <= i < |x| ensures EqualMember(deq, x[i], y) {
      var n := x[i].name;
      assert n in MapOf(y) && n in Names(y);
      var k :| 0 <= k < |y| && y[k].name == n;
      var j := Find(y, n);
      FindsName(y, k);
      assert MapOf(y)[y[j].name] == MeaningOf(y[j].value);
    }
  }

  lemma {:induction false} PlainHasNoDoubles(v: Value)
    requires Plain(v)
    ensures NoDoubles(v)
    decreases v
  {
    match v
    case ArrayValue(x) => forall i | 0 <= i < |x| ensures NoDoubles(x[i]) { PlainHasNoDoubles(x[i]); }
    case ObjectValue(x) => forall i | 0 <= i < |x| ensures NoDoubles(x[i].value) { PlainHasNoDoubles(x[i].value); }
    case _ =>
  }

  /** Reflexive, symmetric and transitive where names are distinct; for symmetry and
      transitivity it is enough that the first value is plain. */
  lemma Equivalence(deq: DoubleEq, a: Value, b: Value, c: Value)
    requires Plain(a) && NoDoubles(b) && NoDoubles(c)
    ensures Equal(deq, a, a)
    ensures Equal(deq, a, b) ==> Equal(deq, b, a)
    ensures Equal(deq, a, b) && Equal(deq, b, c) ==> Equal(deq, a, c)
  {
    hide Equal, Plain, NoDoubles, MeaningOf;
    PlainHasNoDoubles(a);
    EqualIsMeaning(deq, a, a);
    EqualIsMeaning(deq, a, b);
    EqualIsMeaning(deq, a, c);
    if Equal(deq, a, b) {
      EqualIsMeaning(deq, b, a);
      EqualIsMeaning(deq, b, c);
    }
  }

  /** Members may stand in any order. */
  lemma OrderIgnored(deq: DoubleEq, x: seq<Member>, y: seq<Member>)
    requires Plain(ObjectValue(x)) && multiset(x) == multiset(y)
    ensures Equal(deq, ObjectValue(x), ObjectValue(y))
  {
    hide Equal, MeaningOf;
    assert |x| == |multiset(x)| == |multiset(y)| == |y|;
    forall i | 0 <= i < |x| ensures EqualMember(deq, x[i], y) {
      assert x[i] in multiset(y);
      var k :| 0 <= k < |y| && y[k] == x[i];
      var j := Find(y, x[i].name);
      FindsName(y, k);
      assert y[j] in multiset(x);
      var l :| 0 <= l < |x| && x[l] == y[j];
      FindOnly(x, l);
      FindOnly(x, i);
      PlainHasNoDoubles(x[i].value);
      EqualIsMeaning(deq, x[i].value, x[i].value);
    }
    ObjectsEqual(deq, x, y);
  }

  lemma ObjectsEqual(deq: DoubleEq, x: seq<Member>, y: seq<Member>)
    ensures Equal(deq, ObjectValue(x), ObjectValue(y)) <==>
            |x| == |y| && forall i :: 0 <= i < |x| ==> EqualMember(deq, x[i], y)
  {
  }

  /** Integers are compared as 64-bit patterns: equal numbers, or numbers 2^64 apart. */
  lemma IntegersEqual(deq: DoubleEq, v: int, w: int)
    requires -TWO63 <= v < TWO64 && -TWO63 <= w < TWO64
    ensures Equal(deq, NumberValue(Canonical(v)), NumberValue(Canonical(w))) <==>
            v == w || v == w + TWO64 || w == v + TWO64
  {
  }

  lemma MinusOneEqualsMax(deq: DoubleEq)
    ensures Equal(deq, NumberValue(OfInt(-1)), NumberValue(OfUint64(TWO64 - 1)))
  {
  }

  /** Numbers of which some are doubles, where `val` is the conversion to double and no
      number is NaN: transitivity fails exactly when a double stands between two integers
      that it cannot tell apart, or when two integers of one pattern have not one value. */
  lemma TransitiveExactly(val: Number -> real, a: Number, b: Number, c: Number)
    requires var deq := (x: Number, y: Number) => val(x) == val(y);
             Equal(deq, NumberValue(a), NumberValue(b)) && Equal(deq, NumberValue(b), NumberValue(c))
    ensures var deq := (x: Number, y: Number) => val(x) == val(y);
            Equal(deq, NumberValue(a), NumberValue(c)) <==>
            && (b.isDouble && !a.isDouble && !c.isDouble ==> Bits64(a) == Bits64(c))
            && (!b.isDouble && a.isDouble != c.isDouble ==> val(a) == val(c))
  {
  }

  // Duplicate names

  /** An object with two members of one name can equal something, although the
      documentation of the operator says that it never does; and the operator is not
      symmetric there. */
  lemma DuplicatesAsymmetric(deq: DoubleEq)
    ensures var one := NumberValue(OfInt(1));
            var a := ObjectValue([Member([0x61], one), Member([0x61], one)]);
            var b := ObjectValue([Member([0x61], one), Member([0x62], one)]);
            Equal(deq, a, a) && Equal(deq, a, b) && !Equal(deq, b, a)
  {
    var one := NumberValue(OfInt(1));
    var x := [Member([0x61], one), Member([0x61], one)];
    var y := [Member([0x61], one), Member([0x62], one)];
    assert Find(y, [0x61]) == 0 && Find(x, [0x61]) == 0;
    assert [0x62] != [0x61];
    assert x[1..] == [Member([0x61], one)] && x[1..][1..] == [];
    assert Find(x, [0x62]) == 2;
    assert !EqualMember(deq, y[1], x);
  }

  /** What the documentation promises of an object with duplicate names, that it equals
      no value at all, fails exactly when members of one name always equal each other. */
  lemma DuplicatesEqualSomething(deq: DoubleEq, x: seq<Member>)
    requires forall i :: 0 <= i < |x| ==> Plain(x[i].value)
    ensures (exists b :: NoDoubles(b) && Equal(deq, ObjectValue(x), b)) <==> DuplicatesAgree(deq, x)
  {
    hide Equal, Plain, MeaningOf;
    forall i | 0 <= i < |x| ensures NoDoubles(x[i].value) { PlainHasNoDoubles(x[i].value); }
    if b :| NoDoubles(b) && Equal(deq, ObjectValue(x), b) {
      EqualToObject(deq, x, b);
      var y := b.members;
      forall i, j | 0 <= i < |x| && 0 <= j < |x| && x[i].name == x[j].name ensures Equal(deq, x[i].value, x[j].value) {
        assert EqualMember(deq, x[i], y) && EqualMember(deq, x[j], y);
        var w := y[Find(y, x[i].name)].value;
        Equivalence(deq, x[j].value, w, w);
        Equivalence(deq, x[i].value, w, x[j].value);
      }
    }
    if DuplicatesAgree(deq, x) {
      forall i | 0 <= i < |x| ensures EqualMember(deq, x[i], x) {
        FindsName(x, i);
      }
      ObjectsEqual(deq, x, x);
      assert NoDoubles(ObjectValue(x));
    }
  }

  /** The names of an object are all shorter than this. */
  function NameBound(x: seq<Member>): (n: nat)
    ensures forall i :: 0 <= i < |x| ==> |x[i].name| < n
  {
    if x == [] then 0
    else
      var n, last := NameBound(x[..|x| - 1]), |x[|x| - 1].name|;
      assert forall i :: 0 <= i < |x| - 1 ==> x[i] == x[..|x| - 1][i];
      if last < n then n else last + 1
  }

  /** Members of one name always equal each other. */
  ghost predicate DuplicatesAgree(deq: DoubleEq, x: seq<Member>) {
    forall i, j :: 0 <= i < |x| && 0 <= j < |x| && x[i].name == x[j].name ==> Equal(deq, x[i].value, x[j].value)
  }

  /** A later duplicate that agrees can be renamed: what was an object with duplicates
      equals the result, in this direction only. */
  lemma RenamedDuplicate(deq: DoubleEq, x: seq<Member>, i: nat, j: nat, name: Text)
    requires i < j < |x| && x[i].name == x[j].name && DuplicatesAgree(deq, x)
    requires forall k :: 0 <= k < |x| ==> x[k].name != name
    ensures var y := x[j := Member(name, x[j].value)];
            Equal(deq, ObjectValue(x), ObjectValue(y)) && !Equal(deq, ObjectValue(y), ObjectValue(x))
  {
    hide Equal;
    var y := x[j := Member(name, x[j].value)];
    forall k | 0 <= k < |x| ensures EqualMember(deq, x[k], y) {
      FindsName(y, if k == j then i else k);
      assert x[Find(y, x[k].name)].name == x[k].name;
    }
    ObjectsEqual(deq, x, y);
    assert Find(x, y[j].name) == |x|;
    assert !EqualMember(deq, y[j], x);
    ObjectsEqual(deq, y, x);
  }

  /** When the operator is symmetric on an object whose member values are plain, for
      every value on the right: its names are distinct, or two members of one name are
      unequal, and then it equals nothing. */
  lemma SymmetricExactly(deq: DoubleEq, x: seq<Member>)
    requires forall i :: 0 <= i < |x| ==> Plain(x[i].value)
    ensures (forall b :: NoDoubles(b) && Equal(deq, ObjectValue(x), b) ==> Equal(deq, b, ObjectValue(x))) <==>
            Distinct(x) || !DuplicatesAgree(deq, x)
  {
    hide Equal, Plain, DuplicatesAgree;
    DuplicatesEqualSomething(deq, x);
    if Distinct(x) {
      PlainObject(x);
      forall b | NoDoubles(b) && Equal(deq, ObjectValue(x), b) ensures Equal(deq, b, ObjectValue(x)) {
        Equivalence(deq, ObjectValue(x), b, b);
      }
    } else if DuplicatesAgree(deq, x) {
      var i, j :| 0 <= i < j < |x| && x[i].name == x[j].name;
      var name := Repeat(0, NameBound(x));
      RenamedDuplicate(deq, x, i, j, name);
      forall k | 0 <= k < |x| ensures NoDoubles(x[k].value) { PlainHasNoDoubles(x[k].value); }
      var y := x[j := Member(name, x[j].value)];
      assert NoDoubles(ObjectValue(y));
    }
  }

  lemma PlainObject(x: seq<Member>)
    requires Distinct(x) && forall i :: 0 <= i < |x| ==> Plain(x[i].value)
    ensures Plain(ObjectValue(x))
  {
  }

  lemma EqualToObject(deq: DoubleEq, x: seq<Member>, b: Value)
    requires Equal(deq, ObjectValue(x), b) && NoDoubles(b)
    ensures b.ObjectValue? && forall i :: 0 <= i < |x| ==> EqualMember(deq, x[i], b.members)
    ensures forall j :: 0 <= j < |b.members| ==> NoDoubles(b.members[j].value)
  {
  }
}
