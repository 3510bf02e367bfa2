/** The growing storage behind arrays and objects of `GenericValue` (document.h). */
module Containers {
  import opened Bytes
  import opened Values
  import Equality

  const DEFAULT_CAPACITY: nat := 16

  /** The capacity asked for when one more element does not fit. */
  function Grown(capacity: nat): (c: nat)
    ensures c > capacity
    ensures capacity == 0 ==> c == 16
    ensures capacity > 0 ==> 3 * capacity <= 2 * c <= 3 * capacity + 1
  {
    if capacity == 0 then DEFAULT_CAPACITY else capacity + (capacity + 1) / 2
  }

  /** The capacity after `n` calls of `PushBack` on an empty array, and how many elements
      reallocation has moved in all of them together. */
  datatype Growth = Growth(capacity: nat, moved: nat)

  function After(n: nat): (g: Growth)
    ensures n <= g.capacity
  {
    if n == 0 then Growth(0, 0)
    else
      var g := After(n - 1);
      if g.capacity >= n then g else Growth(Grown(g.capacity), g.moved + g.capacity)
  }

  /** Amortised constant time: fewer than 3n moves for n elements. */
  lemma {:induction false} FewMoves(n: nat)
    requires n > 0
    ensures After(n).moved < 3 * n
    ensures After(n).capacity >= DEFAULT_CAPACITY && After(n).moved <= 2 * After(n).capacity - 2 * DEFAULT_CAPACITY
    ensures After(n).capacity == DEFAULT_CAPACITY || 2 * After(n).capacity <= 3 * n - 2
  {
    if n > 1 {
      FewMoves(n - 1);
    } else {
      assert After(0) == Growth(0, 0);
    }
  }

  /** `seq` with its last element moved to position `i`. */
  function LastMovedTo<T>(s: seq<T>, i: nat): (r: seq<T>)
    requires i < |s|
    ensures |r| == |s| - 1
    ensures forall j :: 0 <= j < |r| ==> r[j] == s[if j == i then |s| - 1 else j]
  {
    s[i := s[|s| - 1]][..|s| - 1]
  }

  /** `RemoveMember` keeps the same members apart from the removed one. */
  lemma SameRest<T>(s: seq<T>, i: nat)
    requires i < |s|
    ensures multiset(LastMovedTo(s, i)) == multiset(s) - multiset{s[i]}
  {
    var n := |s| - 1;
    assert s == s[..n] + [s[n]];
    if i < n {
      assert LastMovedTo(s, i) == s[..n][i := s[n]];
      assert s[..n] == s[..i] + [s[i]] + s[i + 1..n];
      assert s[..n][i := s[n]] == s[..i] + [s[n]] + s[i + 1..n];
    } else {
      assert LastMovedTo(s, i) == s[..n];
    }
  }

  /** `s` without the elements from `first` up to `last`. */
  function Without<T>(s: seq<T>, first: nat, last: nat): (r: seq<T>)
    requires first <= last <= |s|
    ensures |r| == |s| - (last - first)
    ensures forall j :: 0 <= j < |r| ==> r[j] == s[if j < first then j else j + (last - first)]
  {
    s[..first] + s[last..]
  }

  lemma SameWithout<T>(s: seq<T>, i: nat)
    requires i < |s|
    ensures multiset(Without(s, i, i + 1)) == multiset(s) - multiset{s[i]}
  {
    assert s == s[..i] + [s[i]] + s[i + 1..];
  }

  lemma StillDistinct(s: seq<Member>, i: nat)
    requires i < |s| && Equality.Distinct(s)
    ensures Equality.Distinct(Without(s, i, i + 1)) && Equality.Distinct(LastMovedTo(s, i))
  {
  }

  /** With distinct names, a lookup does not depend on the order of the members. */
  lemma SameFound(w: seq<Member>, l: seq<Member>, name: Text)
    requires Equality.Distinct(w) && Equality.Distinct(l) && multiset(w) == multiset(l)
    ensures var j, k := Equality.Find(w, name), Equality.Find(l, name);
            (j < |w| <==> k < |l|) && (j < |w| ==> w[j] == l[k])
  {
    if Equality.Find(w, name) < |w| {
      FoundToo(w, l, name);
    }
    if Equality.Find(l, name) < |l| {
      FoundToo(l, w, name);
    }
  }

  lemma FoundToo(w: seq<Member>, l: seq<Member>, name: Text)
    requires Equality.Distinct(l) && multiset(w) == multiset(l) && Equality.Find(w, name) < |w|
    ensures Equality.Find(l, name) < |l| && l[Equality.Find(l, name)] == w[Equality.Find(w, name)]
  {
    var j := Equality.Find(w, name);
    assert w[j] in multiset(l);
    var m :| 0 <= m < |l| && l[m] == w[j];
    Equality.FindOnly(l, m);
  }

  /** `EraseMember` and `RemoveMember` leave the same members behind, and where names are
      distinct both leave every other name its member. */
  lemma RemovalsAgree(s: seq<Member>, i: nat, name: Text)
    requires i < |s| && Equality.Distinct(s)
    ensures var w, l := Without(s, i, i + 1), LastMovedTo(s, i);
            var j, k := Equality.Find(w, name), Equality.Find(l, name);
            && multiset(w) == multiset(l)
            && (j < |w| <==> k < |l|) && (j < |w| ==> w[j] == l[k])
  {
    hide Equality.Distinct, Equality.Find, Without, LastMovedTo;
    SameRest(s, i);
    SameWithout(s, i);
    StillDistinct(s, i);
    SameFound(Without(s, i, i + 1), LastMovedTo(s, i), name);
  }

  class Vector<T(0)> {
    var data: array<T>
    var size: nat
    /** How many elements reallocation has moved so far. */
    ghost var moved: nat

    ghost predicate Valid()
      reads this
    {
      size <= data.Length
    }

    ghost function Contents(): seq<T>
      reads this, data
      requires Valid()
    {
      data[..size]
    }

    /** Storage as a run of `PushBack` leaves it. */
    ghost predicate OnlyPushed()
      reads this
    {
      After(size) == Growth(data.Length, moved)
    }

    constructor ()
      ensures Valid() && fresh(data) && Contents() == [] && OnlyPushed()
    {
      data, size, moved := new T[0], 0, 0;
    }

    method Reserve(newCapacity: nat)
      requires Valid()
      modifies this
      ensures Valid() && size == old(size) && Contents() == old(Contents())
      ensures if newCapacity > old(data.Length) then
                fresh(data) && data.Length == newCapacity && moved == old(moved) + old(data.Length)
              else data == old(data) && moved == old(moved)
    {
      if newCapacity > data.Length {
        var bigger := new T[newCapacity];
        for i := 0 to data.Length
          invariant bigger.Length > data.Length && fresh(bigger) && unchanged(this)
          invariant forall j :: 0 <= j < i ==> bigger[j] == data[j]
        {
          bigger[i] := data[i];
        }
        moved := moved + data.Length;
        data := bigger;
      }
    }

    method PushBack(value: T)
      requires Valid()
      modifies this, data
      ensures Valid() && Contents() == old(Contents()) + [value]
      ensures if old(size) < old(data.Length) then data == old(data)
              else fresh(data) && data.Length == Grown(old(data.Length))
      ensures old(OnlyPushed()) ==> OnlyPushed()
    {
      if size >= data.Length {
        Reserve(Grown(data.Length));
      }
      data[size] := value;
      size := size + 1;
    }

    method PopBack()
      requires Valid() && size > 0
      modifies this`size
      ensures Valid() && Contents() == old(Contents())[..old(size) - 1]
    {
      size := size - 1;
    }

    /** `Erase` and `EraseMember`. */
    method Erase(first: nat, last: nat)
      requires Valid() && first <= last <= size && size > 0
      modifies this`size, data
      ensures Valid() && Contents() == Without(old(Contents()), first, last)
    {
      var n := size - last;
      ghost var before := data[..size];
      for i := 0 to n
        invariant size == old(size)
        invariant forall j :: 0 <= j < first ==> data[j] == before[j]
        invariant forall j :: first <= j < first + i ==> data[j] == before[j + last - first]
        invariant forall j :: last + i <= j < size ==> data[j] == before[j]
      {
        data[first + i] := data[last + i];
      }
      size := size - (last - first);
    }

    /** `RemoveMember` by iterator. */
    method RemoveAt(i: nat)
      requires Valid() && i < size
      modifies this`size, data
      ensures Valid() && Contents() == LastMovedTo(old(Contents()), i)
    {
      var last := size - 1;
      if size > 1 && i != last {
        data[i] := data[last];
      }
      size := size - 1;
    }
  }

  method FindMember(members: Vector<Member>, name: Text) returns (i: nat)
    requires members.Valid()
    ensures i == Equality.Find(members.Contents(), name)
  {
    i := 0;
    while i < members.size && members.data[i].name != name
      invariant i <= members.size
      invariant forall j :: 0 <= j < i ==> members.data[j].name != name
    {
      i := i + 1;
    }
    FirstFound(members.Contents(), name, i);
  }

  lemma FirstFound(x: seq<Member>, name: Text, i: nat)
    requires i <= |x| && (forall j :: 0 <= j < i ==> x[j].name != name) && (i < |x| ==> x[i].name == name)
    ensures Equality.Find(x, name) == i
  {
  }

  /** `RemoveMember` by name; false if there is no such member. */
  method RemoveMember(members: Vector<Member>, name: Text) returns (found: bool)
    requires members.Valid()
    modifies members, members.data
    ensures members.Valid()
    ensures var x, i := old(members.Contents()), Equality.Find(old(members.Contents()), name);
            found == (i < |x|) && members.Contents() == if found then LastMovedTo(x, i) else x
  {
    var i := FindMember(members, name);
    found := i < members.size;
    if found { members.RemoveAt(i); }
  }

  /** `EraseMember` by name. */
  method EraseMember(members: Vector<Member>, name: Text) returns (found: bool)
    requires members.Valid()
    modifies members, members.data
    ensures members.Valid()
    ensures var x, i := old(members.Contents()), Equality.Find(old(members.Contents()), name);
            found == (i < |x|) && members.Contents() == if found then Without(x, i, i + 1) else x
  {
    var i := FindMember(members, name);
    found := i < members.size;
    if found { members.Erase(i, i + 1); }
  }

  /** Any run of `PushBack` on an empty array keeps exactly the pushed elements. */
  method PushBacks<T(0)>(values: seq<T>) returns (v: Vector<T>)
    ensures fresh(v) && v.Valid() && v.Contents() == values
    ensures values != [] ==> v.moved < 3 * |values|
  {
    v := new Vector<T>();
    for i := 0 to |values|
      invariant fresh(v) && fresh(v.data) && v.Valid() && v.Contents() == values[..i] && v.OnlyPushed()
    {
      v.PushBack(values[i]);
    }
    if values != [] { FewMoves(|values|); }
  }
}
