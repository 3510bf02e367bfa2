/** `Get`, `Create`, `Set` and `Erase` of `GenericPointer` (pointer.h) on trees. */
module PointerTree {
  import opened Bytes
  import opened Values
  import opened Pointers
  import opened Equality
  import Containers
  import Lexer

  /** Where a node is: the position of a child at every level. */
  type Path = seq<nat>

  function ChildCount(v: Value): nat {
    match v
    case ArrayValue(x) => |x|
    case ObjectValue(x) => |x|
    case _ => 0
  }

  function Child(v: Value, i: nat): Value
    requires i < ChildCount(v)
  {
    if v.ArrayValue? then v.elements[i] else v.members[i].value
  }

  function WithChild(v: Value, i: nat, c: Value): (r: Value)
    requires i < ChildCount(v)
    ensures ChildCount(r) == ChildCount(v) && Child(r, i) == c
    ensures forall j :: 0 <= j < ChildCount(v) && j != i ==> Child(r, j) == Child(v, j)
  {
    if v.ArrayValue? then ArrayValue(v.elements[i := c])
    else ObjectValue(v.members[i := Member(v.members[i].name, c)])
  }

  predicate IsPath(v: Value, p: Path)
    decreases |p|
  {
    p == [] || (p[0] < ChildCount(v) && IsPath(Child(v, p[0]), p[1..]))
  }

  function NodeAt(v: Value, p: Path): Value
    requires IsPath(v, p)
    decreases |p|
  {
    if p == [] then v else NodeAt(Child(v, p[0]), p[1..])
  }

  function WithNode(v: Value, p: Path, c: Value): Value
    requires IsPath(v, p)
    decreases |p|
  {
    if p == [] then c else WithChild(v, p[0], WithNode(Child(v, p[0]), p[1..], c))
  }

  // Get

  /** The child that one token names. */
  function Step(v: Value, t: Token): (r: Option<nat>)
    ensures r.Some? ==> r.value < ChildCount(v)
  {
    match v
    case ObjectValue(x) => if Find(x, t.name) < |x| then Some(Find(x, t.name)) else None
    case ArrayValue(x) => if t.index == INVALID_INDEX || t.index >= |x| then None else Some(t.index)
    case _ => None
  }

  /** `Get`: the node that the tokens lead to. */
  function Get(v: Value, ts: seq<Token>): (r: Option<Path>)
    ensures r.Some? ==> |r.value| == |ts| && IsPath(v, r.value)
    decreases |ts|
  {
    if ts == [] then Some([])
    else match Step(v, ts[0])
      case None => None
      case Some(i) =>
        match Get(Child(v, i), ts[1..])
        case None => None
        case Some(p) =>
          assert ([i] + p)[1..] == p;
          Some([i] + p)
  }

  /** Does this token mean child `i` of `w`? The first member of its name, or the element
      of its index. */
  predicate Means(t: Token, w: Value, i: nat) {
    match w
    case ObjectValue(x) => i < |x| && x[i].name == t.name && forall j :: 0 <= j < i ==> x[j].name != t.name
    case ArrayValue(x) => i < |x| && t.index == i && i != INVALID_INDEX
    case _ => false
  }

  /** Does every token mean the child where the path goes on? */
  predicate MeansAlong(v: Value, ts: seq<Token>, p: Path)
    requires |p| == |ts|
  {
    IsPath(v, p) && forall k :: 0 <= k < |p| ==> IsPath(v, p[..k]) && Means(ts[k], NodeAt(v, p[..k]), p[k])
  }

  /** `Get` gives exactly the path along which every token means the next child. */
  lemma {:induction false} GetExactly(v: Value, ts: seq<Token>, p: Path)
    requires |p| == |ts|
    ensures Get(v, ts) == Some(p) <==> MeansAlong(v, ts, p)
    decreases |ts|
  {
    if ts != [] {
      hide Means, MeansAlong, Child, Step;
      StepMeans(v, ts[0], p[0]);
      MeansFirst(v, ts, p);
      if p[0] < ChildCount(v) {
        GetExactly(Child(v, p[0]), ts[1..], p[1..]);
        assert p == [p[0]] + p[1..];
        if Get(v, ts) == Some(p) {
          var q := Get(Child(v, p[0]), ts[1..]).value;
          assert p == [p[0]] + q && p[1..] == q;
        }
      }
    }
  }

  lemma MeansFirst(v: Value, ts: seq<Token>, p: Path)
    requires |p| == |ts| > 0
    ensures MeansAlong(v, ts, p)
            <==> p[0] < ChildCount(v) && Means(ts[0], v, p[0]) && MeansAlong(Child(v, p[0]), ts[1..], p[1..])
  {
    hide Means, Child;
    assert p[..0] == [];
    if p[0] < ChildCount(v) {
      var c, q := Child(v, p[0]), p[1..];
      forall k | 0 <= k < |q|
        ensures IsPath(v, p[..k + 1]) <==> IsPath(c, q[..k])
        ensures IsPath(v, p[..k + 1]) ==> NodeAt(v, p[..k + 1]) == NodeAt(c, q[..k])
      {
        assert p[..k + 1][1..] == q[..k];
      }
      if MeansAlong(c, ts[1..], q) && Means(ts[0], v, p[0]) {
        forall k | 0 <= k < |p| ensures IsPath(v, p[..k]) && Means(ts[k], NodeAt(v, p[..k]), p[k]) {
          if k > 0 {
            var j := k - 1;
            assert Means(ts[1..][j], NodeAt(c, q[..j]), q[j]) && IsPath(v, p[..j + 1]);
          }
        }
      }
      if MeansAlong(v, ts, p) {
        forall k | 0 <= k < |q| ensures IsPath(c, q[..k]) && Means(ts[1..][k], NodeAt(c, q[..k]), q[k]) {
          assert Means(ts[k + 1], NodeAt(v, p[..k + 1]), p[k + 1]);
        }
      }
    }
  }

  lemma StepMeans(v: Value, t: Token, i: nat)
    ensures Step(v, t) == Some(i) <==> Means(t, v, i)
    ensures Means(t, v, i) ==> i < ChildCount(v)
  {
  }

  /** `unresolvedTokenIndex`: the first token that means no child; none if `Get` resolves. */
  function Unresolved(v: Value, ts: seq<Token>): (k: Option<nat>)
    ensures k.None? <==> Get(v, ts).Some?
    decreases |ts|
  {
    if ts == [] then None
    else match Step(v, ts[0])
      case None => Some(0)
      case Some(i) =>
        match Unresolved(Child(v, i), ts[1..])
        case None => None
        case Some(k) => Some(k + 1)
  }

  /** The tokens in front of it lead to a node, and with it they lead to none. */
  lemma {:induction false} UnresolvedExactly(v: Value, ts: seq<Token>, k: nat)
    ensures Unresolved(v, ts) == Some(k)
            <==> k < |ts| && Get(v, ts[..k]).Some? && Get(v, ts[..k + 1]).None?
    decreases |ts|
  {
    hide Child;
    if ts != [] && k < |ts| {
      assert ts[..k + 1][1..] == ts[1..][..k];
      if k > 0 { assert ts[..k][1..] == ts[1..][..k - 1]; }
      match Step(v, ts[0])
      case None =>
      case Some(i) => if k > 0 { UnresolvedExactly(Child(v, i), ts[1..], k - 1); }
    } else {
      UnresolvedWithin(v, ts);
    }
  }

  lemma {:induction false} UnresolvedWithin(v: Value, ts: seq<Token>)
    ensures Unresolved(v, ts).Some? ==> Unresolved(v, ts).value < |ts|
    decreases |ts|
  {
    if ts != [] && Step(v, ts[0]).Some? { UnresolvedWithin(Child(v, Step(v, ts[0]).value), ts[1..]); }
  }

  // Create

  predicate IsDash(t: Token) {
    |t.name| == 1 && t.name[0] == 0x2D
  }

  function Nulls(n: nat): seq<Value> {
    seq(n, i => NullValue)
  }

  /** The type change that one token asks for. */
  function Retyped(v: Value, t: Token): Value {
    if t.index == INVALID_INDEX then if v.ObjectValue? then v else ObjectValue([])
    else if v.ArrayValue? || v.ObjectValue? then v
    else ArrayValue([])
  }

  /** What one turn of the loop in `Create` leaves: the node, the child to go on with,
      and whether that child was there before. */
  datatype Made = Made(v: Value, child: nat, existed: bool)

  function MakeStep(v: Value, t: Token): (r: Made)
    ensures r.child < ChildCount(r.v)
  {
    if v.ArrayValue? && IsDash(t) then Made(ArrayValue(v.elements + [NullValue]), |v.elements|, false)
    else
      var w := Retyped(v, t);
      if w.ArrayValue? then
        if t.index >= |w.elements| then
          Made(ArrayValue(w.elements + Nulls(t.index + 1 - |w.elements|)), t.index, false)
        else Made(w, t.index, true)
      else
        var j := Find(w.members, t.name);
        if j == |w.members| then Made(ObjectValue(w.members + [Member(t.name, NullValue)]), j, false)
        else Made(w, j, true)
  }

  datatype Created = Created(v: Value, path: Path, existed: bool)

  /** `Create`: the changed tree, where the node stands in it, and `alreadyExist`. */
  function Create(v: Value, ts: seq<Token>): (r: Created)
    ensures |r.path| == |ts| && IsPath(r.v, r.path)
    decreases |ts|
  {
    if ts == [] then Created(v, [], true)
    else
      var m := MakeStep(v, ts[0]);
      var c := Create(Child(m.v, m.child), ts[1..]);
      assert ([m.child] + c.path)[1..] == c.path;
      Created(WithChild(m.v, m.child, c.v), [m.child] + c.path, m.existed && c.existed)
  }

  /** `Set`. */
  function Set(v: Value, ts: seq<Token>, x: Value): Value {
    var c := Create(v, ts);
    WithNode(c.v, c.path, x)
  }

  /** Tokens as `Parse` makes them. */
  predicate Indexed(t: Token) {
    t.index == IndexOf(t.name)
  }

  lemma DashHasNoIndex(t: Token)
    requires IsDash(t) && Indexed(t)
    ensures t.index == INVALID_INDEX
  {
    assert !Lexer.IsDigit(t.name[0]);
  }

  lemma {:induction false} FindAppended(x: seq<Member>, y: seq<Member>, name: Text)
    ensures Find(x + y, name) == if Find(x, name) < |x| then Find(x, name) else |x| + Find(y, name)
    decreases |x|
  {
    if x == [] {
      assert x + y == y;
    } else {
      assert (x + y)[1..] == x[1..] + y;
      FindAppended(x[1..], y, name);
    }
  }

  predicate SameNames(x: seq<Member>, y: seq<Member>) {
    |x| == |y| && forall i :: 0 <= i < |x| ==> x[i].name == y[i].name
  }

  lemma {:induction false} FindByNames(x: seq<Member>, y: seq<Member>, name: Text)
    requires SameNames(x, y)
    ensures Find(x, name) == Find(y, name)
    decreases |x|
  {
    if x != [] { FindByNames(x[1..], y[1..], name); }
  }

  /** Changing a child changes no step. */
  lemma StepWithChild(v: Value, i: nat, c: Value, t: Token)
    requires i < ChildCount(v)
    ensures Step(WithChild(v, i, c), t) == Step(v, t)
  {
    if v.ObjectValue? { FindByNames(v.members, WithChild(v, i, c).members, t.name); }
  }

  /** One turn of `Create` finds the child that `Get` finds, or makes a null. */
  lemma MakeStepFinds(v: Value, t: Token)
    requires Indexed(t)
    ensures var m := MakeStep(v, t);
            && (m.existed <==> Step(v, t).Some?)
            && (m.existed ==> m.v == v && Step(v, t) == Some(m.child))
            && (!m.existed ==> Child(m.v, m.child) == NullValue)
            && Step(m.v, t) == (if v.ArrayValue? && IsDash(t) then None else Some(m.child))
  {
    if IsDash(t) { DashHasNoIndex(t); }
    var w := Retyped(v, t);
    if w.ObjectValue? {
      var new_ := [Member(t.name, NullValue)];
      FindAppended(w.members, new_, t.name);
      assert Find(new_, t.name) == 0;
    }
  }

  lemma SameChild(v: Value, i: nat)
    requires i < ChildCount(v)
    ensures WithChild(v, i, Child(v, i)) == v
  {
    if v.ArrayValue? {
      assert v.elements[i := v.elements[i]] == v.elements;
    } else {
      assert v.members[i := Member(v.members[i].name, v.members[i].value)] == v.members;
    }
  }

  predicate AllIndexed(ts: seq<Token>) {
    forall i :: 0 <= i < |ts| ==> Indexed(ts[i])
  }

  lemma FirstIndexed(ts: seq<Token>)
    requires AllIndexed(ts) && ts != []
    ensures Indexed(ts[0]) && AllIndexed(ts[1..])
  {
  }

  lemma {:induction false} NullResolvesNothing(ts: seq<Token>)
    ensures Get(NullValue, ts) == if ts == [] then Some([]) else None
  {
  }

  /** `Create` reports an existing value exactly when `Get` had resolved, to the same
      node, and then leaves the tree as it was. */
  lemma {:induction false} CreateReportsGet(v: Value, ts: seq<Token>)
    requires AllIndexed(ts)
    ensures var c := Create(v, ts);
            && (c.existed <==> Get(v, ts).Some?)
            && (c.existed ==> c.v == v && Get(v, ts) == Some(c.path))
    decreases |ts|
  {
    hide MakeStep, Step, WithChild, Child, Indexed, AllIndexed;
    if ts != [] {
      FirstIndexed(ts);
      MakeStepFinds(v, ts[0]);
      var m := MakeStep(v, ts[0]);
      CreateReportsGet(Child(m.v, m.child), ts[1..]);
      SameChild(m.v, m.child);
    }
  }

  /** Does a `-` meet an array on the way? */
  predicate MetDash(v: Value, ts: seq<Token>)
    decreases |ts|
  {
    ts != [] &&
    ((v.ArrayValue? && IsDash(ts[0])) || var m := MakeStep(v, ts[0]); MetDash(Child(m.v, m.child), ts[1..]))
  }

  /** After `Create`, `Get` reaches the created node, unless a `-` met an array: then
      it reaches nothing. */
  lemma {:induction false} GetAfterCreate(v: Value, ts: seq<Token>)
    requires AllIndexed(ts)
    ensures var c := Create(v, ts);
            Get(c.v, ts) == if MetDash(v, ts) then None else Some(c.path)
    decreases |ts|
  {
    hide MakeStep, Step, WithChild, Child, Indexed, AllIndexed, IsDash;
    if ts != [] {
      FirstIndexed(ts);
      MakeStepFinds(v, ts[0]);
      var m := MakeStep(v, ts[0]);
      var c := Create(Child(m.v, m.child), ts[1..]);
      GetAfterCreate(Child(m.v, m.child), ts[1..]);
      StepWithChild(m.v, m.child, c.v, ts[0]);
    }
  }

  /** A created node is null. */
  lemma {:induction false} CreatedIsNull(v: Value, ts: seq<Token>)
    requires AllIndexed(ts)
    ensures var c := Create(v, ts);
            !c.existed ==> NodeAt(c.v, c.path) == NullValue
    decreases |ts|
  {
    hide MakeStep, Step, WithChild, Child, Indexed, AllIndexed;
    if ts != [] {
      FirstIndexed(ts);
      MakeStepFinds(v, ts[0]);
      var m := MakeStep(v, ts[0]);
      CreatedIsNull(Child(m.v, m.child), ts[1..]);
      var c := Create(Child(m.v, m.child), ts[1..]);
      assert ([m.child] + c.path)[1..] == c.path;
      if !m.existed && c.existed {
        NullResolvesNothing(ts[1..]);
        CreateReportsGet(NullValue, ts[1..]);
      }
    }
  }

  // What `Create` leaves at every step

  /** What one token leaves of the node that it meets, apart from the child `i` that the
      next token goes on with. */
  ghost predicate StepLeaves(v: Value, t: Token, w: Value, i: nat) {
    match v
    case ArrayValue(x) =>
      if t.name == [0x2D] then AppendedNulls(x, w, i, |x|)
      else if t.index == INVALID_INDEX then OnlyMember(w, t.name, i)
      else if t.index < |x| then
        && w.ArrayValue? && i == t.index && |w.elements| == |x|
        && forall j :: 0 <= j < |x| && j != i ==> w.elements[j] == x[j]
      else AppendedNulls(x, w, i, t.index)
    case ObjectValue(x) =>
      && w.ObjectValue?
      && if exists j :: 0 <= j < |x| && x[j].name == t.name then
           && |w.members| == |x| && i < |x| && x[i].name == t.name == w.members[i].name
           && (forall j :: 0 <= j < i ==> x[j].name != t.name)
           && forall j :: 0 <= j < |x| && j != i ==> w.members[j] == x[j]
         else
           && |w.members| == |x| + 1 && i == |x| && w.members[i].name == t.name
           && forall j :: 0 <= j < |x| ==> w.members[j] == x[j]
    case _ => if t.index == INVALID_INDEX then OnlyMember(w, t.name, i) else AppendedNulls([], w, i, t.index)
  }

  /** An array of the old elements and of nulls up to `last`, the child `i`. */
  ghost predicate AppendedNulls(x: seq<Value>, w: Value, i: nat, last: nat) {
    && w.ArrayValue? && i == last >= |x| && |w.elements| == last + 1
    && (forall j :: 0 <= j < |x| ==> w.elements[j] == x[j])
    && forall j :: |x| <= j < last ==> w.elements[j] == NullValue
  }

  /** An object whose only member, the child `i`, has this name. */
  ghost predicate OnlyMember(w: Value, name: Text, i: nat) {
    w.ObjectValue? && |w.members| == 1 && i == 0 && w.members[0].name == name
  }

  /** The node that the next token meets: the one that the tokens so far lead to, or
      else a new null. */
  function Met(v: Value, ts: seq<Token>): Value {
    match Get(v, ts)
    case Some(p) => NodeAt(v, p)
    case None => NullValue
  }

  lemma MakeStepLeaves(v: Value, t: Token, c: Value)
    requires Indexed(t)
    ensures var m := MakeStep(v, t);
            StepLeaves(v, t, WithChild(m.v, m.child, c), m.child)
  {
    hide MakeStep, StepLeaves, WithChild;
    if v.ArrayValue? {
      ArrayLeaves(v, t, c);
    } else if v.ObjectValue? {
      ObjectLeaves(v, t, c);
    } else {
      ScalarLeaves(v, t, c);
    }
  }

  lemma DashIs(t: Token)
    ensures IsDash(t) <==> t.name == [0x2D]
  {
  }

  lemma ArrayLeaves(v: Value, t: Token, c: Value)
    requires v.ArrayValue? && Indexed(t)
    ensures var m := MakeStep(v, t);
            StepLeaves(v, t, WithChild(m.v, m.child, c), m.child)
  {
    hide IsDash, IndexOf;
    DashIs(t);
    if IsDash(t) {
      DashHasNoIndex(t);
    } else if t.index == INVALID_INDEX {
      assert Find([], t.name) == 0;
    }
  }

  lemma ObjectLeaves(v: Value, t: Token, c: Value)
    requires v.ObjectValue? && Indexed(t)
    ensures var m := MakeStep(v, t);
            StepLeaves(v, t, WithChild(m.v, m.child, c), m.child)
  {
    hide IsDash, IndexOf, Find;
    var x := v.members;
    if j :| 0 <= j < |x| && x[j].name == t.name { FindsName(x, j); }
  }

  lemma ScalarLeaves(v: Value, t: Token, c: Value)
    requires !v.ArrayValue? && !v.ObjectValue? && Indexed(t)
    ensures var m := MakeStep(v, t);
            StepLeaves(v, t, WithChild(m.v, m.child, c), m.child)
  {
    hide IsDash, IndexOf;
    assert Find([], t.name) == 0;
  }

  lemma MetStep(v: Value, ts: seq<Token>, k: nat)
    requires AllIndexed(ts) && 1 <= k <= |ts|
    ensures var m := MakeStep(v, ts[0]);
            Met(v, ts[..k]) == Met(Child(m.v, m.child), ts[1..][..k - 1])
  {
    hide MakeStep, Step, WithChild, Child, Indexed, AllIndexed;
    FirstIndexed(ts);
    MakeStepFinds(v, ts[0]);
    var m := MakeStep(v, ts[0]);
    var rest := ts[1..][..k - 1];
    assert ts[..k][1..] == rest;
    if m.existed {
      var g := Get(Child(v, m.child), rest);
      if g.Some? {
        var p := [m.child] + g.value;
        assert Get(v, ts[..k]) == Some(p);
        assert p[1..] == g.value;
      }
    } else {
      NullResolvesNothing(rest);
    }
  }

  /** Along the whole pointer: whatever the tree, every node on the created path is what
      its token leaves of the node that was there, or of a new null. */
  lemma {:induction false} CreatedAlong(v: Value, ts: seq<Token>, k: nat)
    requires AllIndexed(ts) && k < |ts|
    ensures var c := Create(v, ts);
            && IsPath(c.v, c.path[..k])
            && StepLeaves(Met(v, ts[..k]), ts[k], NodeAt(c.v, c.path[..k]), c.path[k])
    decreases k
  {
    hide MakeStep, Step, WithChild, Child, ChildCount, IsPath, NodeAt, Indexed, AllIndexed, StepLeaves, Met;
    FirstIndexed(ts);
    var m := MakeStep(v, ts[0]);
    var child := Child(m.v, m.child);
    var d := Create(child, ts[1..]);
    var c := Create(v, ts);
    if k == 0 {
      MakeStepLeaves(v, ts[0], d.v);
      assert ts[..0] == [] && c.path[..0] == [];
      MetAtOnce(v);
      PathAtOnce(c.v);
    } else {
      CreatedAlong(child, ts[1..], k - 1);
      MetStep(v, ts, k);
      assert c.path[..k] == [m.child] + d.path[..k - 1];
      PathStep(c.v, m.child, d.path[..k - 1]);
    }
  }

  lemma PathAtOnce(v: Value)
    ensures IsPath(v, []) && NodeAt(v, []) == v
  {
  }

  lemma PathStep(v: Value, i: nat, p: Path)
    requires i < ChildCount(v) && IsPath(Child(v, i), p)
    ensures IsPath(v, [i] + p) && NodeAt(v, [i] + p) == NodeAt(Child(v, i), p)
  {
    hide Child;
    assert ([i] + p)[1..] == p;
  }

  lemma MetAtOnce(v: Value)
    ensures Met(v, []) == v
  {
  }

  lemma {:induction false} NodeOfWithNode(v: Value, p: Path, x: Value)
    requires IsPath(v, p)
    ensures IsPath(WithNode(v, p, x), p) && NodeAt(WithNode(v, p, x), p) == x
    decreases |p|
  {
    hide WithChild, Child;
    if p != [] { NodeOfWithNode(Child(v, p[0]), p[1..], x); }
  }

  lemma {:induction false} GetWithNode(v: Value, ts: seq<Token>, p: Path, x: Value)
    requires IsPath(v, p) && |p| == |ts|
    ensures Get(v, ts) == Some(p) ==> Get(WithNode(v, p, x), ts) == Some(p)
    decreases |p|
  {
    hide WithChild, Child, Step;
    if p != [] && Get(v, ts) == Some(p) {
      var i := Step(v, ts[0]).value;
      var q := Get(Child(v, i), ts[1..]).value;
      assert p == [i] + q && ([i] + q)[1..] == q;
      GetWithNode(Child(v, i), ts[1..], q, x);
      StepWithChild(v, i, WithNode(Child(v, i), q, x), ts[0]);
    }
  }

  /** After `Set`, the node holds the value, and `Get` reaches it unless a `-` met an
      array. */
  lemma GetAfterSet(v: Value, ts: seq<Token>, x: Value)
    requires AllIndexed(ts)
    ensures var c, w := Create(v, ts), Set(v, ts, x);
            && IsPath(w, c.path) && NodeAt(w, c.path) == x
            && (!MetDash(v, ts) ==> Get(w, ts) == Some(c.path))
  {
    hide Create, MetDash, Get, WithNode, NodeAt, IsPath;
    var c := Create(v, ts);
    GetAfterCreate(v, ts);
    NodeOfWithNode(c.v, c.path, x);
    GetWithNode(c.v, ts, c.path, x);
  }

  // What stays

  /** Neither path runs through the node of the other. */
  predicate Apart(p: Path, q: Path)
    decreases |p|
  {
    p != [] && q != [] && (p[0] != q[0] || Apart(p[1..], q[1..]))
  }

  /** On its way along `q`, `Create` turns an array that `q` runs through into an object. */
  predicate Lost(v: Value, ts: seq<Token>, q: Path)
    requires IsPath(v, q)
    decreases |ts|
  {
    ts != [] && q != [] &&
    ((v.ArrayValue? && !IsDash(ts[0]) && ts[0].index == INVALID_INDEX)
     || (MakeStep(v, ts[0]).child == q[0] && Lost(Child(v, q[0]), ts[1..], q[1..])))
  }

  /** A step that leads to a child still leads there after one turn of `Create` for
      another token, unless the type changes. */
  lemma StepAfterMake(v: Value, t: Token, u: Token)
    requires Indexed(t) && Indexed(u) && Step(v, u).Some?
    ensures var m := MakeStep(v, t);
            var q := Step(v, u).value;
            if v.ArrayValue? && !IsDash(t) && t.index == INVALID_INDEX then Step(m.v, u).None?
            else Step(m.v, u) == Some(q) && q < ChildCount(m.v) && Child(m.v, q) == Child(v, q)
  {
    if v.ObjectValue? {
      FindAppended(v.members, [Member(t.name, NullValue)], u.name);
    } else if !IsDash(t) && t.index == INVALID_INDEX {
      var x := [Member(t.name, NullValue)];
      assert Find([], t.name) == 0 && [] + x == x;
      assert u.name != t.name;
      assert x[1..] == [] && Find(x, u.name) == 1;
    }
  }

  /** Any pointer that resolved still resolves to the same place after `Create`, unless
      an array on its way was turned into an object: then it resolves no more. A node
      apart from the created one keeps its value. */
  lemma {:induction false} CreateKeepsOthers(v: Value, ts: seq<Token>, us: seq<Token>)
    requires AllIndexed(ts) && AllIndexed(us) && Get(v, us).Some?
    ensures var c := Create(v, ts);
            var q := Get(v, us).value;
            && Get(c.v, us) == (if Lost(v, ts, q) then None else Some(q))
            && (!Lost(v, ts, q) && Apart(c.path, q) ==> NodeAt(c.v, q) == NodeAt(v, q))
    decreases |ts|
  {
    hide MakeStep, Step, WithChild, Child, Indexed, AllIndexed, IsDash;
    if ts != [] && us != [] {
      FirstIndexed(ts);
      FirstIndexed(us);
      StepAfterMake(v, ts[0], us[0]);
      var m := MakeStep(v, ts[0]);
      var c := Create(Child(m.v, m.child), ts[1..]);
      StepWithChild(m.v, m.child, c.v, us[0]);
      var q := Get(v, us).value;
      var rest := Get(Child(v, q[0]), us[1..]).value;
      assert q == [Step(v, us[0]).value] + rest && q[1..] == rest;
      assert ([m.child] + c.path)[1..] == c.path;
      if Step(m.v, us[0]).Some? && m.child == q[0] {
        CreateKeepsOthers(Child(v, q[0]), ts[1..], us[1..]);
      }
    }
  }

  lemma {:induction false} WithNodeKeepsOthers(v: Value, p: Path, x: Value, us: seq<Token>)
    requires IsPath(v, p) && Get(v, us).Some? && Apart(p, Get(v, us).value)
    ensures var q := Get(v, us).value;
            Get(WithNode(v, p, x), us) == Some(q) && NodeAt(WithNode(v, p, x), q) == NodeAt(v, q)
    decreases |p|
  {
    hide Step, WithChild, Child;
    var q := Get(v, us).value;
    var rest := Get(Child(v, q[0]), us[1..]).value;
    assert q == [Step(v, us[0]).value] + rest && q[1..] == rest;
    var c := WithNode(Child(v, p[0]), p[1..], x);
    StepWithChild(v, p[0], c, us[0]);
    if p[0] == q[0] { WithNodeKeepsOthers(Child(v, p[0]), p[1..], x, us[1..]); }
  }

  /** `Set` keeps every value apart from the node that it sets, with the same exception. */
  lemma SetKeepsOthers(v: Value, ts: seq<Token>, x: Value, us: seq<Token>)
    requires AllIndexed(ts) && AllIndexed(us) && Get(v, us).Some?
    requires !Lost(v, ts, Get(v, us).value) && Apart(Create(v, ts).path, Get(v, us).value)
    ensures var q := Get(v, us).value;
            var w := Set(v, ts, x);
            Get(w, us) == Some(q) && NodeAt(w, q) == NodeAt(v, q)
  {
    hide Create, Get, Lost, Apart, WithNode, NodeAt, IsPath;
    CreateKeepsOthers(v, ts, us);
    var c := Create(v, ts);
    WithNodeKeepsOthers(c.v, c.path, x, us);
  }

  // Erase

  datatype Erased = Erased(v: Value, done: bool)

  /** The last step of `Erase`. */
  function EraseChild(v: Value, t: Token): Erased {
    match v
    case ObjectValue(x) =>
      var j := Find(x, t.name);
      if j < |x| then Erased(ObjectValue(Containers.Without(x, j, j + 1)), true) else Erased(v, false)
    case ArrayValue(x) =>
      if t.index == INVALID_INDEX || t.index >= |x| then Erased(v, false)
      else Erased(ArrayValue(Containers.Without(x, t.index, t.index + 1)), true)
    case _ => Erased(v, false)
  }

  function Erase(v: Value, ts: seq<Token>): Erased
    decreases |ts|
  {
    if ts == [] then Erased(v, false)
    else if |ts| == 1 then EraseChild(v, ts[0])
    else match Step(v, ts[0])
      case None => Erased(v, false)
      case Some(i) =>
        var e := Erase(Child(v, i), ts[1..]);
        Erased(if e.done then WithChild(v, i, e.v) else v, e.done)
  }

  /** `Erase` succeeds exactly on pointers that resolve, the root excepted; otherwise it
      changes nothing. */
  lemma {:induction false} EraseSucceeds(v: Value, ts: seq<Token>)
    ensures var e := Erase(v, ts);
            && (e.done <==> ts != [] && Get(v, ts).Some?)
            && (!e.done ==> e.v == v)
    decreases |ts|
  {
    if |ts| == 1 {
      assert ts[1..] == [];
      if Step(v, ts[0]).Some? { assert Get(Child(v, Step(v, ts[0]).value), ts[1..]).Some?; }
    } else if ts != [] {
      hide Child, WithChild, Step;
      if Step(v, ts[0]).Some? { EraseSucceeds(Child(v, Step(v, ts[0]).value), ts[1..]); }
    }
  }

  /** `after` is `before` without its child `i`: the others stay, in their order. */
  predicate LeftWithout(before: Value, after: Value, i: nat) {
    match before
    case ObjectValue(x) =>
      && i < |x| && after.ObjectValue? && |after.members| == |x| - 1
      && forall j :: 0 <= j < |x| - 1 ==> after.members[j] == x[if j < i then j else j + 1]
    case ArrayValue(x) =>
      && i < |x| && after.ArrayValue? && |after.elements| == |x| - 1
      && forall j :: 0 <= j < |x| - 1 ==> after.elements[j] == x[if j < i then j else j + 1]
    case _ => false
  }

  lemma EraseChildExactly(v: Value, t: Token)
    requires Step(v, t).Some?
    ensures LeftWithout(v, EraseChild(v, t).v, Step(v, t).value)
  {
  }

  /** `Erase` takes exactly the node out of its parent that `Get` resolves to, and changes
      nothing apart from that parent. */
  lemma {:induction false} EraseExactly(v: Value, ts: seq<Token>)
    requires ts != [] && Get(v, ts).Some?
    ensures var p, w := Get(v, ts).value, Erase(v, ts).v;
            var q := p[..|p| - 1];
            && IsPath(v, q) && IsPath(w, q) && w == WithNode(v, q, NodeAt(w, q))
            && LeftWithout(NodeAt(v, q), NodeAt(w, q), p[|p| - 1])
    decreases |ts|
  {
    hide Step, Child, WithChild, LeftWithout;
    var i := Step(v, ts[0]).value;
    var p := Get(v, ts).value;
    EraseSucceeds(v, ts);
    if |ts| == 1 {
      assert p[..0] == [];
      EraseChildExactly(v, ts[0]);
    } else {
      var d := Get(Child(v, i), ts[1..]).value;
      assert p == [i] + d;
      EraseSucceeds(Child(v, i), ts[1..]);
      EraseExactly(Child(v, i), ts[1..]);
      assert p[..|p| - 1][1..] == d[..|d| - 1];
    }
  }

  /** Is a new child at the end of `v` all that one turn of `Create` adds? */
  predicate Appends(v: Value, t: Token) {
    v.ObjectValue? || (v.ArrayValue? && t.index == |v.elements| && t.index != INVALID_INDEX)
  }

  lemma EraseChildUndoes(v: Value, t: Token)
    requires Indexed(t) && Step(v, t).None?
    ensures EraseChild(MakeStep(v, t).v, t) == Erased(v, true) <==> Appends(v, t)
  {
    hide IndexOf, IsDash, Find, Nulls, Containers.Without;
    if IsDash(t) { DashHasNoIndex(t); }
    var w := Retyped(v, t);
    if w.ObjectValue? {
      assert Find([], t.name) == 0;
      EraseMemberUndoes(w.members, t.name);
    } else if !(v.ArrayValue? && IsDash(t)) {
      EraseElementUndoes(w.elements, t.index);
    }
  }

  lemma EraseMemberUndoes(x: seq<Member>, name: Text)
    requires Find(x, name) == |x|
    ensures var y := x + [Member(name, NullValue)];
            Find(y, name) == |x| && Containers.Without(y, |x|, |x| + 1) == x
  {
    var new_ := [Member(name, NullValue)];
    FindAppended(x, new_, name);
    assert Find(new_, name) == 0;
  }

  /** What is left when the last of the appended nulls is erased. */
  lemma EraseElementUndoes(x: seq<Value>, i: nat)
    requires |x| <= i
    ensures var y := Containers.Without(x + Nulls(i + 1 - |x|), i, i + 1);
            |y| == i && (i == |x| ==> y == x)
  {
  }

  /** When the parent of an unresolved pointer exists, erasing after creating gives the
      old tree back if and only if the parent was an object, or an array that grew by
      exactly one element. */
  lemma {:induction false} EraseUndoesCreate(v: Value, ts: seq<Token>)
    requires AllIndexed(ts) && ts != [] && Get(v, ts).None? && Get(v, ts[..|ts| - 1]).Some?
    ensures Erase(Create(v, ts).v, ts) == Erased(v, true)
            <==> Appends(NodeAt(v, Get(v, ts[..|ts| - 1]).value), ts[|ts| - 1])
    decreases |ts|
  {
    hide Appends, EraseChild, Indexed, AllIndexed;
    FirstIndexed(ts);
    var m := MakeStep(v, ts[0]);
    MakeStepFinds(v, ts[0]);
    if |ts| == 1 {
      hide MakeStep, Step, WithChild;
      assert ts[..0] == [] && ts[1..] == [];
      SameChild(m.v, m.child);
      OneStep(v, ts[0]);
      EraseChildUndoes(v, ts[0]);
    } else {
      hide MakeStep, Step, WithChild, Child;
      var rest := ts[1..];
      assert ts[..|ts| - 1][1..] == rest[..|rest| - 1];
      var i := Step(v, ts[0]).value;
      EraseUndoesCreate(Child(v, i), rest);
      var c := Create(Child(v, i), rest);
      StepWithChild(v, i, c.v, ts[0]);
      EraseBelow(v, i, c.v, Erase(c.v, rest));
      var p := Get(Child(v, i), rest[..|rest| - 1]).value;
      assert ([i] + p)[1..] == p;
    }
  }

  lemma OneStep(v: Value, t: Token)
    ensures Get(v, [t]).Some? <==> Step(v, t).Some?
  {
    assert [t][1..] == [];
    if Step(v, t).Some? { assert Get(Child(v, Step(v, t).value), []).Some?; }
  }

  /** Changing one child twice is changing it once; the old tree is back exactly when
      the old child is. */
  lemma EraseBelow(v: Value, i: nat, c: Value, e: Erased)
    requires i < ChildCount(v)
    ensures WithChild(WithChild(v, i, c), i, e.v) == v <==> e.v == Child(v, i)
    ensures Child(WithChild(v, i, c), i) == c
  {
    SameChild(v, i);
    if v.ArrayValue? {
      assert v.elements[i := c][i := e.v] == v.elements[i := e.v];
    } else {
      var name := v.members[i].name;
      assert v.members[i := Member(name, c)][i := Member(name, e.v)] == v.members[i := Member(name, e.v)];
    }
  }
}
