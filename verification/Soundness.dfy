/** Whatever the recursive parser accepts is a text of the grammar, and its tree is
    the only one. */
module Soundness {
  import opened Bytes
  import opened Sax
  import opened Lexer
  import opened ParseState
  import opened Grammar
  import opened Leaves
  import opened Numerals
  import opened Completeness
  import Recursive
  import Iterative
  import Agreement
  import Utf8

  /** The white space that `Blank` skips. */
  function Skipped(e: Env, s: State): Text
    requires Within(e, s) && Blank(e, s).Ok()
  {
    e.text[s.pos..Blank(e, s).pos]
  }

  lemma BlankRecovered(e: Env, s: State)
    requires Within(e, s) && Blank(e, s).Ok()
    ensures Blank(e, s) == s.(pos := s.pos + |Skipped(e, s)|)
    ensures IsLastBlank(e.flags.comments, Skipped(e, s)) && Occurs(e.text, s.pos, Skipped(e, s))
    ensures Peek(e, Blank(e, s)) != 0 ==> IsBlank(e.flags.comments, Skipped(e, s))
  {
    hide IsBlank, IsLastBlank, Skip;
    BlankSkipped(e.text, s.pos, e.flags.comments);
  }

  lemma SendOk(e: Env, s: State, pos: nat, event: Event, reported: nat)
    requires Send(e, s, pos, event, reported).Ok()
    ensures Send(e, s, pos, event, reported) == State(pos, s.events + [event], None)
  {
  }

  lemma WordRecovered(t: Text, p: nat, word: Text, event: Event)
    requires p < |t| && word != [] && t[p] == word[0] && forall i :: 0 <= i < |word| ==> word[i] != 0
    requires Word(t, p, word, event).Leaf?
    ensures Occurs(t, p, word) && Word(t, p, word, event) == Leaf(p + |word|, event, p + |word|)
  {
    MatchedOccurs(t, p, word);
  }

  lemma StringRecovered(e: Env, p: nat, isKey: bool) returns (items: seq<Item>)
    requires p < |e.text| && e.text[p] == QUOTE && ParsedString(e, p, isKey).Leaf?
    ensures AreItems(items, e.flags.validateEncoding) && Occurs(e.text, p, QuotedText(items))
    ensures var leaf := ParsedString(e, p, isKey);
            var s := ItemsValue(items, e.flags.validateEncoding);
            leaf.pos == p + |QuotedText(items)| && leaf.event == if isKey then Key(s) else String(s)
  {
    items := ItemsRecovered(e.text, p + 1, e.flags.validateEncoding, []);
    OccursFirst(e.text, p, QUOTE, ItemsText(items) + [QUOTE]);
    assert [] + ItemsValue(items, e.flags.validateEncoding) == ItemsValue(items, e.flags.validateEncoding);
  }

  lemma ScalarRecovered(e: Env, p: nat) returns (v: Tree)
    requires p <= |e.text| && Scalar(e, p).Leaf?
    requires At(e.text, p) != LBRACE && At(e.text, p) != LBRACKET
    ensures IsTree(e, v) && IsLeafTree(v) && Occurs(e.text, p, TreeText(v))
    ensures Scalar(e, p).pos == p + |TreeText(v)| && Events(e, v) == [Scalar(e, p).event] && At(e.text, p) != 0
    ensures Ends(v, At(e.text, p + |TreeText(v)|))
  {
    hide Number, NumeralText, IsNumeral, InRange, NumeralEvent, QuotedText, ItemsValue, ParsedString, Word, Prolongs;
    var t, c := e.text, At(e.text, p);
    if c == NULL_NAME[0] {
      WordRecovered(t, p, NULL_NAME, Null);
      v := NullTree;
    } else if c == TRUE_NAME[0] {
      WordRecovered(t, p, TRUE_NAME, Bool(true));
      v := BoolTree(true);
    } else if c == FALSE_NAME[0] {
      WordRecovered(t, p, FALSE_NAME, Bool(false));
      v := BoolTree(false);
    } else if c == QUOTE {
      var items := StringRecovered(e, p, false);
      v := StringTree(items);
    } else {
      NumeralRecovered(e, p);
      v := NumberTree(NumeralAt(t, p));
      if c == 0 { NulNoNumber(e, p); }
      assert p + |t[p..Number(e, p).pos]| == Number(e, p).pos;
    }
  }

  lemma NulNoNumber(e: Env, p: nat)
    requires p <= |e.text| && At(e.text, p) == 0
    ensures Number(e, p).BadLeaf?
  {
  }

  lemma {:induction false} TreeRecovered(e: Env, s: State) returns (v: Tree)
    requires Within(e, s) && Recursive.Value(e, s).Ok()
    ensures IsTree(e, v) && Occurs(e.text, s.pos, TreeText(v)) && Peek(e, s) != 0
    ensures Recursive.Value(e, s) == State(s.pos + |TreeText(v)|, s.events + Events(e, v), None)
    ensures Ends(v, At(e.text, s.pos + |TreeText(v)|))
    decreases |e.text| - s.pos, 2
  {
    hide Scalar, Send, TreeText, Events, Recursive.Array, Recursive.Object, IsTree;
    if Peek(e, s) == LBRACE {
      v := ObjectRecovered(e, s);
    } else if Peek(e, s) == LBRACKET {
      v := ArrayRecovered(e, s);
    } else {
      v := ScalarRecovered(e, s.pos);
      var leaf := Scalar(e, s.pos);
      SendOk(e, s, leaf.pos, leaf.event, leaf.reported);
    }
  }

  lemma ArrayParts(e: Env, w: Text, x: Elements)
    ensures IsTree(e, ArrayTree(w, x)) <==>
            IsBlank(e.flags.comments, w) && !x.TrailingElements? && AreElements(e, x)
    ensures TreeText(ArrayTree(w, x)) == [LBRACKET] + (w + (ElementsText(x) + [RBRACKET]))
    ensures IsTree(e, ArrayTree(w, x)) ==>
              Events(e, ArrayTree(w, x)) == [StartArray] + ElementsEvents(e, x) + [EndArray(ElementCount(x))]
  {
  }

  lemma ObjectParts(e: Env, w: Text, x: Members)
    ensures IsTree(e, ObjectTree(w, x)) <==>
            IsBlank(e.flags.comments, w) && !x.TrailingMembers? && AreMembers(e, x)
    ensures TreeText(ObjectTree(w, x)) == [LBRACE] + (w + (MembersText(x) + [RBRACE]))
    ensures IsTree(e, ObjectTree(w, x)) ==>
              Events(e, ObjectTree(w, x)) == [StartObject] + MembersEvents(e, x) + [EndObject(MemberCount(x))]
  {
  }

  lemma {:induction false} ArrayRecovered(e: Env, s: State) returns (v: Tree)
    requires Within(e, s) && Peek(e, s) == LBRACKET && Recursive.Array(e, s).Ok()
    ensures v.ArrayTree?
    ensures IsTree(e, v) && Occurs(e.text, s.pos, TreeText(v))
    ensures Recursive.Array(e, s) == State(s.pos + |TreeText(v)|, s.events + Events(e, v), None)
    decreases |e.text| - s.pos, 1
  {
    hide Send, Blank, Skipped, IsBlank, IsLastBlank, Recursive.Elements, ElementsEvents, ElementsText, AreElements,
      Occurs, IsTree, TreeText,
      Events;
    var t, p := e.text, s.pos;
    SendOk(e, s, p + 1, StartArray, p + 1);
    var s1 := State(p + 1, s.events + [StartArray], None);
    BlankRecovered(e, s1);
    var w := Skipped(e, s1);
    var q := p + 1 + |w|;
    var s2 := s1.(pos := q);
    var x: Elements;
    if Peek(e, s2) == RBRACKET {
      SendOk(e, s2, q + 1, EndArray(0), q + 1);
      x := NoElements;
      EmptyLists(e);
      NoBlank(e, t, q + 1);
      OccursFirst(t, q, RBRACKET, []);
      assert [] + [RBRACKET] == [RBRACKET] + [];
      assert s.events + [StartArray] + [EndArray(0)] == s.events + ([StartArray] + [] + [EndArray(0)]);
    } else {
      x := ElementsRecovered(e, s2, 0);
      assert s.events + [StartArray] + ElementsEvents(e, x) + [EndArray(ElementCount(x))]
          == s.events + ([StartArray] + ElementsEvents(e, x) + [EndArray(ElementCount(x))]);
    }
    v := ArrayTree(w, x);
    ArrayParts(e, w, x);
    OccursConcat(t, p + 1, w, ElementsText(x) + [RBRACKET]);
    OccursFirst(t, p, LBRACKET, w + (ElementsText(x) + [RBRACKET]));
  }

  lemma EmptyLists(e: Env)
    ensures AreElements(e, NoElements) && ElementsText(NoElements) == [] && ElementsEvents(e, NoElements) == []
    ensures AreMembers(e, NoMembers) && MembersText(NoMembers) == [] && MembersEvents(e, NoMembers) == []
    ensures ElementsText(TrailingElements) == [] && MembersText(TrailingMembers) == []
    ensures e.flags.trailingCommas ==>
              && AreElements(e, TrailingElements) && ElementsEvents(e, TrailingElements) == []
              && AreMembers(e, TrailingMembers) && MembersEvents(e, TrailingMembers) == []
  {
  }

  lemma {:induction false} ElementsRecovered(e: Env, s: State, n: nat) returns (x: Elements)
    requires Within(e, s) && Recursive.Elements(e, s, n).Ok()
    ensures x.Elements? && AreElements(e, x) && Occurs(e.text, s.pos, ElementsText(x) + [RBRACKET])
    ensures Peek(e, s) != 0
    ensures Recursive.Elements(e, s, n) ==
            State(s.pos + |ElementsText(x)| + 1,
                  s.events + ElementsEvents(e, x) + [EndArray(n + ElementCount(x))], None)
    decreases |e.text| - s.pos, 4
  {
    hide Blank, Skipped, IsBlank, IsLastBlank, TreeText, ElementsText, ElementEndText, Recursive.Value,
      Recursive.ElementEnd,
      Events, IsTree, Occurs;
    var t := e.text;
    var v := TreeRecovered(e, s);
    var q := s.pos + |TreeText(v)|;
    var s1 := State(q, s.events + Events(e, v), None);
    BlankRecovered(e, s1);
    var w1 := Skipped(e, s1);
    var w2, rest := ElementEndRecovered(e, s1.(pos := q + |w1|), n);
    x := Elements(v, w1, w2, rest);
    var z := ArrayEndText(w2, rest);
    assert ElementEndText(x) == z by { ArrayEndTextIs(x); }
    ElementsTextSplit(x);
    OccursConcat(t, q, w1, z);
    OccursConcat(t, s.pos, TreeText(v), w1 + z);
    assert s.events + Events(e, v) + ElementsEvents(e, rest) == s.events + (Events(e, v) + ElementsEvents(e, rest));
  }

  function ArrayEndText(w2: Text, rest: Elements): Text {
    if rest.NoElements? then [RBRACKET] else [COMMA] + (w2 + (ElementsText(rest) + [RBRACKET]))
  }

  lemma ArrayEndTextIs(x: Elements)
    requires x.Elements?
    ensures ElementEndText(x) == ArrayEndText(x.w2, x.rest)
  {
  }

  lemma {:induction false} ElementEndRecovered(e: Env, s: State, n: nat) returns (w2: Text, rest: Elements)
    requires Within(e, s) && Recursive.ElementEnd(e, s, n).Ok()
    ensures IsBlank(e.flags.comments, w2) && AreElements(e, rest) && (rest.NoElements? ==> w2 == [])
    ensures Peek(e, s) != 0
    ensures Occurs(e.text, s.pos, ArrayEndText(w2, rest))
    ensures Recursive.ElementEnd(e, s, n) ==
            State(s.pos + |ArrayEndText(w2, rest)|,
                  s.events + ElementsEvents(e, rest) + [EndArray(n + 1 + ElementCount(rest))], None)
    decreases |e.text| - s.pos, 3
  {
    hide Blank, Skipped, IsBlank, IsLastBlank, Recursive.Elements, ElementsEvents, AreElements, ElementsText, Occurs;
    var t := e.text;
    if Peek(e, s) == COMMA {
      BlankRecovered(e, s.(pos := s.pos + 1));
      w2 := Skipped(e, s.(pos := s.pos + 1));
      var s1 := s.(pos := s.pos + 1 + |w2|);
      if e.flags.trailingCommas && Peek(e, s1) == RBRACKET {
        SendOk(e, s1, s1.pos + 1, EndArray(n + 1), s1.pos);
        rest := TrailingElements;
        EmptyLists(e);
        NoBlank(e, t, s1.pos + 1);
        OccursFirst(t, s1.pos, RBRACKET, []);
        assert [RBRACKET] + [] == [] + [RBRACKET];
        assert s.events + [] == s.events;
      } else {
        rest := ElementsRecovered(e, s1, n + 1);
      }
      OccursConcat(t, s.pos + 1, w2, ElementsText(rest) + [RBRACKET]);
      OccursFirst(t, s.pos, COMMA, w2 + (ElementsText(rest) + [RBRACKET]));
    } else {
      SendOk(e, s, s.pos + 1, EndArray(n + 1), s.pos + 1);
      w2, rest := [], NoElements;
      NoBlank(e, t, s.pos + 1);
      EmptyLists(e);
      OccursFirst(t, s.pos, RBRACKET, []);
      assert [RBRACKET] + [] == [RBRACKET];
      assert s.events + [] == s.events;
    }
  }

  lemma NoBlank(e: Env, t: Text, p: nat)
    ensures IsBlank(e.flags.comments, []) && (p <= |t| ==> Occurs(t, p, []))
  {
  }

  lemma {:induction false} ObjectRecovered(e: Env, s: State) returns (v: Tree)
    requires Within(e, s) && Peek(e, s) == LBRACE && Recursive.Object(e, s).Ok()
    ensures v.ObjectTree?
    ensures IsTree(e, v) && Occurs(e.text, s.pos, TreeText(v))
    ensures Recursive.Object(e, s) == State(s.pos + |TreeText(v)|, s.events + Events(e, v), None)
    decreases |e.text| - s.pos, 1
  {
    hide Send, Blank, Skipped, IsBlank, IsLastBlank, Recursive.Members, MembersEvents, MembersText, AreMembers,
      Occurs, IsTree, TreeText,
      Events;
    var t, p := e.text, s.pos;
    SendOk(e, s, p + 1, StartObject, p + 1);
    var s1 := State(p + 1, s.events + [StartObject], None);
    BlankRecovered(e, s1);
    var w := Skipped(e, s1);
    var q := p + 1 + |w|;
    var s2 := s1.(pos := q);
    var x: Members;
    if Peek(e, s2) == RBRACE {
      SendOk(e, s2, q + 1, EndObject(0), q + 1);
      x := NoMembers;
      EmptyLists(e);
      NoBlank(e, t, q + 1);
      OccursFirst(t, q, RBRACE, []);
      assert [] + [RBRACE] == [RBRACE] + [];
      assert s.events + [StartObject] + [EndObject(0)] == s.events + ([StartObject] + [] + [EndObject(0)]);
    } else {
      x := MembersRecovered(e, s2, 0);
      assert s.events + [StartObject] + MembersEvents(e, x) + [EndObject(MemberCount(x))]
          == s.events + ([StartObject] + MembersEvents(e, x) + [EndObject(MemberCount(x))]);
    }
    v := ObjectTree(w, x);
    ObjectParts(e, w, x);
    OccursConcat(t, p + 1, w, MembersText(x) + [RBRACE]);
    OccursFirst(t, p, LBRACE, w + (MembersText(x) + [RBRACE]));
  }

  lemma {:induction false} MembersRecovered(e: Env, s: State, n: nat) returns (x: Members)
    requires Within(e, s) && Recursive.Members(e, s, n).Ok()
    ensures x.Members? && AreMembers(e, x) && Occurs(e.text, s.pos, MembersText(x) + [RBRACE])
    ensures Peek(e, s) != 0
    ensures Recursive.Members(e, s, n) ==
            State(s.pos + |MembersText(x)| + 1,
                  s.events + MembersEvents(e, x) + [EndObject(n + MemberCount(x))], None)
    decreases |e.text| - s.pos, 5
  {
    hide Send, Blank, Skipped, IsBlank, IsLastBlank, TreeText, QuotedText, Recursive.Member, Events, IsTree, Occurs,
      ItemsValue,
      AreItems, ParsedString, MemberText, MembersText;
    var t := e.text;
    var leaf := ParsedString(e, s.pos, true);
    var name := StringRecovered(e, s.pos, true);
    SendOk(e, s, leaf.pos, leaf.event, leaf.reported);
    var key := Key(ItemsValue(name, e.flags.validateEncoding));
    var a := s.pos + |QuotedText(name)|;
    var s1 := State(a, s.events + [key], None);
    BlankRecovered(e, s1);
    var wn := Skipped(e, s1);
    MemberColon(e, s1.(pos := a + |wn|), n);
    x := MemberRecovered(e, s1.(pos := a + |wn|), name, wn, n);
    MembersTextSplit(x);
    OccursConcat(t, a, wn, MemberText(x));
    OccursConcat(t, s.pos, QuotedText(name), wn + MemberText(x));
    assert s.events + [key] + (Events(e, x.v) + MembersEvents(e, x.rest))
        == s.events + ([key] + Events(e, x.v) + MembersEvents(e, x.rest));
  }

  lemma MemberColon(e: Env, s: State, n: nat)
    requires Within(e, s) && Recursive.Member(e, s, n).Ok()
    ensures Peek(e, s) == COLON
  {
    hide Recursive.Value, Recursive.MemberEnd;
  }

  lemma {:induction false} MemberRecovered(e: Env, s: State, name: seq<Item>, wn: Text, n: nat) returns (x: Members)
    requires Within(e, s) && Recursive.Member(e, s, n).Ok()
    requires AreItems(name, e.flags.validateEncoding) && IsBlank(e.flags.comments, wn)
    ensures x.Members? && x.name == name && x.wn == wn && AreMembers(e, x) && Occurs(e.text, s.pos, MemberText(x))
    ensures Recursive.Member(e, s, n) ==
            State(s.pos + |MemberText(x)|,
                  s.events + (Events(e, x.v) + MembersEvents(e, x.rest)) + [EndObject(n + MemberCount(x))], None)
    decreases |e.text| - s.pos, 4
  {
    hide Send, Blank, Skipped, IsBlank, IsLastBlank, TreeText, MembersText, MemberText, MemberEndText, EndText,
      Recursive.Value,
      Recursive.MemberEnd, Events, IsTree, Occurs, AreItems;
    var t := e.text;
    BlankRecovered(e, s.(pos := s.pos + 1));
    var wc := Skipped(e, s.(pos := s.pos + 1));
    var c := s.pos + 1 + |wc|;
    var v := TreeRecovered(e, s.(pos := c));
    var d := c + |TreeText(v)|;
    var s2 := State(d, s.events + Events(e, v), None);
    BlankRecovered(e, s2);
    var w1 := Skipped(e, s2);
    var w2, rest := MemberEndRecovered(e, s2.(pos := d + |w1|), n);
    x := Members(name, wn, wc, v, w1, w2, rest);
    EndTextIs(x);
    MemberTextOccurs(t, s.pos, x);
    assert s.events + Events(e, v) + MembersEvents(e, rest) == s.events + (Events(e, v) + MembersEvents(e, rest));
  }

  /** The text of a member from the colon on, piece by piece. */
  lemma MemberTextOccurs(t: Text, p: nat, x: Members)
    requires x.Members? && p < |t| && At(t, p) == COLON && Occurs(t, p + 1, x.wc)
    requires Occurs(t, p + 1 + |x.wc|, TreeText(x.v)) && Occurs(t, p + 1 + |x.wc| + |TreeText(x.v)|, x.w1)
    requires Occurs(t, p + 1 + |x.wc| + |TreeText(x.v)| + |x.w1|, MemberEndText(x))
    ensures Occurs(t, p, MemberText(x))
    ensures |MemberText(x)| == 1 + |x.wc| + |TreeText(x.v)| + |x.w1| + |MemberEndText(x)|
  {
    hide TreeText, MemberEndText, Occurs;
    var v, z := TreeText(x.v), MemberEndText(x);
    var c := p + 1 + |x.wc|;
    OccursConcat(t, c + |v|, x.w1, z);
    OccursConcat(t, c, v, x.w1 + z);
    OccursConcat(t, p + 1, x.wc, v + (x.w1 + z));
    OccursFirst(t, p, COLON, x.wc + (v + (x.w1 + z)));
  }

  function EndText(w2: Text, rest: Members): Text {
    if rest.NoMembers? then [RBRACE] else [COMMA] + (w2 + (MembersText(rest) + [RBRACE]))
  }

  lemma EndTextIs(x: Members)
    requires x.Members?
    ensures MemberEndText(x) == EndText(x.w2, x.rest)
  {
  }

  lemma {:induction false} MemberEndRecovered(e: Env, s: State, n: nat) returns (w2: Text, rest: Members)
    requires Within(e, s) && Recursive.MemberEnd(e, s, n).Ok()
    ensures IsBlank(e.flags.comments, w2) && AreMembers(e, rest) && (rest.NoMembers? ==> w2 == [])
    ensures Peek(e, s) != 0
    ensures Occurs(e.text, s.pos, EndText(w2, rest))
    ensures Recursive.MemberEnd(e, s, n) ==
            State(s.pos + |EndText(w2, rest)|,
                  s.events + MembersEvents(e, rest) + [EndObject(n + 1 + MemberCount(rest))], None)
    decreases |e.text| - s.pos, 3
  {
    hide Send, Blank, Skipped, IsBlank, IsLastBlank, Recursive.Members, MembersEvents, AreMembers, MembersText, Occurs;
    var t := e.text;
    if Peek(e, s) == COMMA {
      BlankRecovered(e, s.(pos := s.pos + 1));
      w2 := Skipped(e, s.(pos := s.pos + 1));
      var s1 := s.(pos := s.pos + 1 + |w2|);
      if e.flags.trailingCommas && Peek(e, s1) == RBRACE {
        SendOk(e, s1, s1.pos + 1, EndObject(n + 1), s1.pos);
        rest := TrailingMembers;
        EmptyLists(e);
        NoBlank(e, t, s1.pos + 1);
        OccursFirst(t, s1.pos, RBRACE, []);
        assert [RBRACE] + [] == [] + [RBRACE];
        assert s.events + [] == s.events;
      } else {
        rest := MembersRecovered(e, s1, n + 1);
      }
      OccursConcat(t, s.pos + 1, w2, MembersText(rest) + [RBRACE]);
      OccursFirst(t, s.pos, COMMA, w2 + (MembersText(rest) + [RBRACE]));
    } else {
      SendOk(e, s, s.pos + 1, EndObject(n + 1), s.pos + 1);
      w2, rest := [], NoMembers;
      NoBlank(e, t, s.pos + 1);
      EmptyLists(e);
      OccursFirst(t, s.pos, RBRACE, []);
      assert [RBRACE] + [] == [RBRACE];
      assert s.events + [] == s.events;
    }
  }

  /** The parsed text, up to where the reader stopped, is a document of the grammar. */
  lemma DocumentRecovered(e: Env) returns (before: Text, v: Tree, after: Text)
    requires Recursive.Parse(e).Ok() && !e.flags.stopWhenDone
    ensures IsDocument(e, before, v, after)
    ensures e.text[..Recursive.Parse(e).pos] == DocumentText(before, v, after)
    ensures Recursive.Parse(e).events == Events(e, v)
    ensures At(e.text, Recursive.Parse(e).pos) == 0
  {
    hide Blank, Skipped, TreeText, Recursive.Value, IsBlank, IsLastBlank, Events, IsTree;
    var t := e.text;
    BlankRecovered(e, Recursive.START);
    before := Skipped(e, Recursive.START);
    var s1 := State(|before|, [], None);
    v := TreeRecovered(e, s1);
    var q := |before| + |TreeText(v)|;
    assert [] + Events(e, v) == Events(e, v);
    var s2 := State(q, Events(e, v), None);
    BlankRecovered(e, s2);
    after := Skipped(e, s2);
    OccursConcat(t, |before|, TreeText(v), after);
    OccursConcat(t, 0, before, TreeText(v) + after);
    assert t[0..|before + (TreeText(v) + after)|] == t[..Recursive.Parse(e).pos];
  }

  // Uniqueness

  lemma BlankUnique(t: Text, p: nat, comments: bool, a: Text, b: Text)
    requires IsBlank(comments, a) && Occurs(t, p, a) && Solid(At(t, p + |a|))
    requires IsBlank(comments, b) && Occurs(t, p, b) && Solid(At(t, p + |b|))
    ensures a == b
  {
    SkipsBlank(t, p, comments, a);
    SkipsBlank(t, p, comments, b);
  }

  lemma LastBlankUnique(t: Text, p: nat, comments: bool, a: Text, b: Text)
    requires IsLastBlank(comments, a) && Occurs(t, p, a) && At(t, p + |a|) == 0
    requires IsLastBlank(comments, b) && Occurs(t, p, b) && At(t, p + |b|) == 0
    ensures a == b
  {
    SkipsLastBlank(t, p, comments, a);
    SkipsLastBlank(t, p, comments, b);
  }

  lemma StringUnique(e: Env, p: nat, a: seq<Item>, b: seq<Item>)
    requires AreItems(a, e.flags.validateEncoding) && Occurs(e.text, p, QuotedText(a))
    requires AreItems(b, e.flags.validateEncoding) && Occurs(e.text, p, QuotedText(b))
    ensures a == b
  {
    OccursFirst(e.text, p, QUOTE, ItemsText(a) + [QUOTE]);
    OccursFirst(e.text, p, QUOTE, ItemsText(b) + [QUOTE]);
    ItemsUnique(e.text, p + 1, a, b, e.flags.validateEncoding);
  }

  /** Two trees with the same text from the same place are the same tree. */
  lemma {:induction false} TreeUnique(e: Env, p: nat, a: Tree, b: Tree)
    requires IsTree(e, a) && Occurs(e.text, p, TreeText(a)) && Ends(a, At(e.text, p + |TreeText(a)|))
    requires IsTree(e, b) && Occurs(e.text, p, TreeText(b)) && Ends(b, At(e.text, p + |TreeText(b)|))
    ensures a == b
    decreases a, 0
  {
    hide TreeText, IsTree, Ends, Occurs;
    TreeAt(e, e.text, p, a);
    TreeAt(e, e.text, p, b);
    TreeBegins(e, a);
    TreeBegins(e, b);
    match a
    case ArrayTree(w, x) =>
      var y := b.elements;
      ArrayPlaces(e, p, w, x);
      ArrayPlaces(e, p, b.w, y);
      BlankUnique(e.text, p + 1, e.flags.comments, w, b.w);
      ElementsUnique(e, p + 1 + |w|, x, y);
    case ObjectTree(w, x) =>
      var y := b.members;
      ObjectPlaces(e, p, w, x);
      ObjectPlaces(e, p, b.w, y);
      BlankUnique(e.text, p + 1, e.flags.comments, w, b.w);
      MembersUnique(e, p + 1 + |w|, x, y);
    case _ => LeafUnique(e, p, a, b);
  }

  lemma DelimitedUnique(e: Env, p: nat, a: Tree, b: Tree)
    requires IsTree(e, a) && Occurs(e.text, p, TreeText(a)) && Delimits(At(e.text, p + |TreeText(a)|))
    requires IsTree(e, b) && Occurs(e.text, p, TreeText(b)) && Delimits(At(e.text, p + |TreeText(b)|))
    ensures a == b
    decreases a, 1
  {
    hide TreeText, IsTree, Delimits, Ends, Occurs;
    DelimiterEnds(a, At(e.text, p + |TreeText(a)|));
    DelimiterEnds(b, At(e.text, p + |TreeText(b)|));
    TreeUnique(e, p, a, b);
  }

  lemma LeafUnique(e: Env, p: nat, a: Tree, b: Tree)
    requires IsTree(e, a) && Occurs(e.text, p, TreeText(a)) && Ends(a, At(e.text, p + |TreeText(a)|))
    requires IsTree(e, b) && Occurs(e.text, p, TreeText(b)) && Ends(b, At(e.text, p + |TreeText(b)|))
    requires IsLeafTree(a) && IsLeafTree(b)
    ensures a == b
  {
    hide NumeralText, IsNumeral, InRange, QuotedText, Prolongs, Number;
    TreeAt(e, e.text, p, a);
    TreeAt(e, e.text, p, b);
    TreeBegins(e, a);
    TreeBegins(e, b);
    if a.StringTree? {
      StringUnique(e, p, a.items, b.items);
    } else if a.NumberTree? {
      NumeralRead(e, p, a.n);
      NumeralRead(e, p, b.n);
    }
  }

  lemma ArrayPlaces(e: Env, p: nat, w: Text, x: Elements)
    requires IsTree(e, ArrayTree(w, x)) && Occurs(e.text, p, TreeText(ArrayTree(w, x)))
    ensures IsBlank(e.flags.comments, w) && AreElements(e, x) && !x.TrailingElements?
    ensures Occurs(e.text, p + 1, w) && Occurs(e.text, p + 1 + |w|, ElementsText(x) + [RBRACKET])
    ensures Solid(At(e.text, p + 1 + |w|))
  {
    hide ElementsText, MembersText, QuotedText, NumeralText, Occurs, IsBlank, AreElements, AreMembers, AreItems,
      IsNumeral,
      InRange;
    OccursFirst(e.text, p, LBRACKET, w + (ElementsText(x) + [RBRACKET]));
    OccursConcat(e.text, p + 1, w, ElementsText(x) + [RBRACKET]);
    ElementsBegin(e, e.text, p + 1 + |w|, x);
  }

  lemma ObjectPlaces(e: Env, p: nat, w: Text, x: Members)
    requires IsTree(e, ObjectTree(w, x)) && Occurs(e.text, p, TreeText(ObjectTree(w, x)))
    ensures IsBlank(e.flags.comments, w) && AreMembers(e, x) && !x.TrailingMembers?
    ensures Occurs(e.text, p + 1, w) && Occurs(e.text, p + 1 + |w|, MembersText(x) + [RBRACE])
    ensures Solid(At(e.text, p + 1 + |w|))
  {
    hide ElementsText, MembersText, QuotedText, NumeralText, Occurs, IsBlank, AreElements, AreMembers, AreItems,
      IsNumeral,
      InRange;
    OccursFirst(e.text, p, LBRACE, w + (MembersText(x) + [RBRACE]));
    OccursConcat(e.text, p + 1, w, MembersText(x) + [RBRACE]);
    MembersBegin(e, e.text, p + 1 + |w|, x);
  }

  /** Where an element, the white space behind it and the rest of the array stand. */
  lemma ElementPlaces(e: Env, p: nat, x: Elements)
    requires x.Elements? && AreElements(e, x) && Occurs(e.text, p, ElementsText(x) + [RBRACKET])
    ensures var t, q := e.text, p + |TreeText(x.v)|;
            var r := q + |x.w1|;
            && Occurs(t, p, TreeText(x.v)) && Delimits(At(t, q)) && Occurs(t, q, x.w1) && Solid(At(t, r))
            && At(t, r) == (if x.rest.NoElements? then RBRACKET else COMMA)
            && Occurs(t, r, ElementEndText(x))
  {
    hide TreeText, IsBlank, Delimits, ElementsText, Occurs, ElementEndText;
    var t, z := e.text, ElementEndText(x);
    ElementsTextSplit(x);
    OccursConcat(t, p, TreeText(x.v), x.w1 + z);
    var q := p + |TreeText(x.v)|;
    OccursConcat(t, q, x.w1, z);
    ElementEndBegins(t, q, e.flags.comments, x);
  }

  lemma ElementEndPlaces(e: Env, r: nat, x: Elements)
    requires x.Elements? && AreElements(e, x) && !x.rest.NoElements? && Occurs(e.text, r, ElementEndText(x))
    ensures Occurs(e.text, r + 1, x.w2) && Solid(At(e.text, r + 1 + |x.w2|))
    ensures Occurs(e.text, r + 1 + |x.w2|, ElementsText(x.rest) + [RBRACKET])
  {
    hide ElementsText, Occurs, IsBlank, IsTree;
    OccursFirst(e.text, r, COMMA, x.w2 + (ElementsText(x.rest) + [RBRACKET]));
    OccursConcat(e.text, r + 1, x.w2, ElementsText(x.rest) + [RBRACKET]);
    ElementsBegin(e, e.text, r + 1 + |x.w2|, x.rest);
  }

  lemma BracketsDelimit()
    ensures Delimits(COMMA) && Delimits(RBRACKET) && Delimits(RBRACE)
    ensures Solid(COMMA) && Solid(RBRACKET) && Solid(RBRACE) && Solid(COLON)
  {
  }

  lemma {:induction false} ElementsUnique(e: Env, p: nat, x: Elements, y: Elements)
    requires AreElements(e, x) && Occurs(e.text, p, ElementsText(x) + [RBRACKET])
    requires AreElements(e, y) && Occurs(e.text, p, ElementsText(y) + [RBRACKET])
    requires x.NoElements? || y.NoElements? ==> !x.TrailingElements? && !y.TrailingElements?
    ensures x == y
    decreases x, 1
  {
    hide TreeText, IsBlank, Delimits, ElementsText, Occurs, IsTree, Solid, ElementEndText;
    ElementsBegin(e, e.text, p, x);
    ElementsBegin(e, e.text, p, y);
    if x.Elements? {
      ElementPlaces(e, p, x);
      ElementPlaces(e, p, y);
      DelimitedUnique(e, p, x.v, y.v);
      var q := p + |TreeText(x.v)|;
      BlankUnique(e.text, q, e.flags.comments, x.w1, y.w1);
      if !x.rest.NoElements? {
        ElementEndPlaces(e, q + |x.w1|, x);
        ElementEndPlaces(e, q + |x.w1|, y);
        BlankUnique(e.text, q + |x.w1| + 1, e.flags.comments, x.w2, y.w2);
        ElementsUnique(e, q + |x.w1| + 1 + |x.w2|, x.rest, y.rest);
      }
    }
  }

  /** Where a name and its value stand, and what follows each. */
  lemma NamePlaces(e: Env, p: nat, x: Members)
    requires x.Members? && AreMembers(e, x) && Occurs(e.text, p, MembersText(x) + [RBRACE])
    ensures var t, a := e.text, p + |QuotedText(x.name)|;
            && Occurs(t, p, QuotedText(x.name)) && Occurs(t, a, x.wn)
            && At(t, a + |x.wn|) == COLON && Occurs(t, a + |x.wn|, MemberText(x))
  {
    hide QuotedText, MemberText, MembersText, Occurs;
    MembersTextSplit(x);
    OccursConcat(e.text, p, QuotedText(x.name), x.wn + MemberText(x));
    OccursConcat(e.text, p + |QuotedText(x.name)|, x.wn, MemberText(x));
    ColonFirst(e.text, p + |QuotedText(x.name)| + |x.wn|, x);
  }

  lemma MemberPlaces(e: Env, b: nat, x: Members)
    requires x.Members? && AreMembers(e, x) && Occurs(e.text, b, MemberText(x))
    ensures var t, c := e.text, b + 1 + |x.wc|;
            var d := c + |TreeText(x.v)|;
            var r := d + |x.w1|;
            && Occurs(t, b + 1, x.wc) && Solid(At(t, c))
            && Occurs(t, c, TreeText(x.v)) && Delimits(At(t, d)) && Occurs(t, d, x.w1) && Solid(At(t, r))
            && At(t, r) == (if x.rest.NoMembers? then RBRACE else COMMA)
            && Occurs(t, r, MemberEndText(x))
  {
    hide TreeText, IsBlank, Delimits, MembersText, Occurs, MemberEndText;
    var t, v, z := e.text, TreeText(x.v), MemberEndText(x);
    OccursFirst(t, b, COLON, x.wc + (v + (x.w1 + z)));
    OccursConcat(t, b + 1, x.wc, v + (x.w1 + z));
    var c := b + 1 + |x.wc|;
    OccursConcat(t, c, v, x.w1 + z);
    OccursConcat(t, c + |v|, x.w1, z);
    TreeAt(e, t, c, x.v);
    MemberEndBegins(t, c + |v|, e.flags.comments, x);
  }

  lemma MemberEndPlaces(e: Env, r: nat, x: Members)
    requires x.Members? && AreMembers(e, x) && !x.rest.NoMembers? && Occurs(e.text, r, MemberEndText(x))
    ensures Occurs(e.text, r + 1, x.w2) && Solid(At(e.text, r + 1 + |x.w2|))
    ensures Occurs(e.text, r + 1 + |x.w2|, MembersText(x.rest) + [RBRACE])
  {
    hide MembersText, Occurs, IsBlank, IsTree, AreItems;
    OccursFirst(e.text, r, COMMA, x.w2 + (MembersText(x.rest) + [RBRACE]));
    OccursConcat(e.text, r + 1, x.w2, MembersText(x.rest) + [RBRACE]);
    MembersBegin(e, e.text, r + 1 + |x.w2|, x.rest);
  }

  lemma NameUnique(e: Env, p: nat, x: Members, y: Members)
    requires x.Members? && AreMembers(e, x) && Occurs(e.text, p, MembersText(x) + [RBRACE])
    requires y.Members? && AreMembers(e, y) && Occurs(e.text, p, MembersText(y) + [RBRACE])
    ensures x.name == y.name && x.wn == y.wn
    ensures var b := p + |QuotedText(x.name)| + |x.wn|;
            Occurs(e.text, b, MemberText(x)) && Occurs(e.text, b, MemberText(y))
  {
    hide TreeText, QuotedText, IsBlank, MembersText, MemberText, Occurs, IsTree, AreItems;
    NamePlaces(e, p, x);
    NamePlaces(e, p, y);
    StringUnique(e, p, x.name, y.name);
    BlankUnique(e.text, p + |QuotedText(x.name)|, e.flags.comments, x.wn, y.wn);
  }

  lemma {:induction false} MembersUnique(e: Env, p: nat, x: Members, y: Members)
    requires AreMembers(e, x) && Occurs(e.text, p, MembersText(x) + [RBRACE])
    requires AreMembers(e, y) && Occurs(e.text, p, MembersText(y) + [RBRACE])
    requires x.NoMembers? || y.NoMembers? ==> !x.TrailingMembers? && !y.TrailingMembers?
    ensures x == y
    decreases x, 1
  {
    hide TreeText, QuotedText, IsBlank, Delimits, MembersText, MemberText, MemberEndText, Occurs, IsTree, Solid,
      AreItems;
    MembersBegin(e, e.text, p, x);
    MembersBegin(e, e.text, p, y);
    if x.Members? {
      MemberUnique(e, p, x, y);
      if !x.rest.NoMembers? {
        var r := p + |QuotedText(x.name)| + |x.wn| + 1 + |x.wc| + |TreeText(x.v)| + |x.w1|;
        MemberEndPlaces(e, r, x);
        MemberEndPlaces(e, r, y);
        BlankUnique(e.text, r + 1, e.flags.comments, x.w2, y.w2);
        MembersUnique(e, r + 1 + |x.w2|, x.rest, y.rest);
      }
    }
  }

  /** The first member of both, up to what ends it. */
  lemma MemberUnique(e: Env, p: nat, x: Members, y: Members)
    requires x.Members? && AreMembers(e, x) && Occurs(e.text, p, MembersText(x) + [RBRACE])
    requires y.Members? && AreMembers(e, y) && Occurs(e.text, p, MembersText(y) + [RBRACE])
    ensures x.name == y.name && x.wn == y.wn && x.wc == y.wc && x.v == y.v && x.w1 == y.w1
    ensures x.rest.NoMembers? == y.rest.NoMembers?
    ensures var r := p + |QuotedText(x.name)| + |x.wn| + 1 + |x.wc| + |TreeText(x.v)| + |x.w1|;
            Occurs(e.text, r, MemberEndText(x)) && Occurs(e.text, r, MemberEndText(y))
    decreases x, 0
  {
    hide TreeText, QuotedText, IsBlank, Delimits, MembersText, MemberText, MemberEndText, Occurs, IsTree, Solid,
      AreItems;
    BracketsDelimit();
    NameUnique(e, p, x, y);
    var b := p + |QuotedText(x.name)| + |x.wn|;
    MemberPlaces(e, b, x);
    MemberPlaces(e, b, y);
    BlankUnique(e.text, b + 1, e.flags.comments, x.wc, y.wc);
    var c := b + 1 + |x.wc|;
    DelimitedUnique(e, c, x.v, y.v);
    BlankUnique(e.text, c + |TreeText(x.v)|, e.flags.comments, x.w1, y.w1);
  }

  /** A text is the text of at most one document. */
  lemma DocumentUnique(e: Env, before: Text, v: Tree, after: Text, before': Text, v': Tree, after': Text)
    requires IsDocument(e, before, v, after) && IsDocument(e, before', v', after')
    requires e.text == DocumentText(before, v, after) == DocumentText(before', v', after')
    ensures before == before' && v == v' && after == after'
  {
    hide TreeText, IsBlank, IsLastBlank, IsTree, Delimits, DocumentText;
    DocumentPlaces(e, before, v, after);
    DocumentPlaces(e, before', v', after');
    BlankUnique(e.text, 0, e.flags.comments, before, before');
    DelimitedUnique(e, |before|, v, v');
    LastBlankUnique(e.text, |before| + |TreeText(v)|, e.flags.comments, after, after');
  }

  lemma DocumentPlaces(e: Env, before: Text, v: Tree, after: Text)
    requires IsDocument(e, before, v, after) && e.text == DocumentText(before, v, after)
    ensures var t, q := e.text, |before| + |TreeText(v)|;
            && Occurs(t, 0, before) && Solid(At(t, |before|))
            && Occurs(t, |before|, TreeText(v)) && Delimits(At(t, q))
            && Occurs(t, q, after) && At(t, q + |after|) == 0
  {
    hide TreeText, IsBlank, IsLastBlank, IsTree, Delimits;
    var t := e.text;
    assert t[0..|t|] == t;
    OccursConcat(t, 0, before, TreeText(v) + after);
    OccursConcat(t, |before|, TreeText(v), after);
    TreeAt(e, t, |before|, v);
    EndDelimits(t, |before| + |TreeText(v)|, e.flags.comments, after);
  }

  /** A text has a tree in the grammar. */
  ghost predicate InGrammar(e: Env) {
    exists before, v, after :: IsDocument(e, before, v, after) && e.text == DocumentText(before, v, after)
  }

  /** A NUL byte ends the text for the reader. */
  predicate NulFree(t: Text) {
    forall i :: 0 <= i < |t| ==> t[i] != 0
  }

  /** Under every flag that changes what is accepted, and with a handler that never
      refuses, both parsers accept exactly the texts of the grammar. */
  lemma AcceptedExactlyGrammar(e: Env)
    requires AcceptsAll(e) && NulFree(e.text) && !e.flags.stopWhenDone
    ensures Recursive.Parse(e).Ok() <==> InGrammar(e)
    ensures Iterative.Parse(e).Ok() <==> InGrammar(e)
  {
    hide Recursive.Parse, Iterative.Parse, IsDocument, DocumentText, AcceptsAll;
    Agreement.ParsersAgree(e);
    if Recursive.Parse(e).Ok() {
      var before, v, after := DocumentRecovered(e);
      StopsAtEnd(e);
      assert e.text[..Recursive.Parse(e).pos] == e.text;
    }
    if InGrammar(e) {
      var before, v, after :| IsDocument(e, before, v, after) && e.text == DocumentText(before, v, after);
      DocumentParsed(e, before, v, after);
    }
  }

  lemma StopsAtEnd(e: Env)
    requires NulFree(e.text) && Recursive.Parse(e).Ok() && !e.flags.stopWhenDone
    ensures Recursive.Parse(e).pos == |e.text|
  {
    hide Recursive.Value, Blank;
  }

  /** What they then send are the events of the only tree that the text has. */
  lemma EventsOfTheTree(e: Env, before: Text, v: Tree, after: Text)
    requires NulFree(e.text) && !e.flags.stopWhenDone
    requires IsDocument(e, before, v, after) && e.text == DocumentText(before, v, after)
    requires Recursive.Parse(e).Ok()
    ensures Recursive.Parse(e).events == Iterative.Parse(e).events == Events(e, v)
  {
    hide Recursive.Parse, Iterative.Parse, IsDocument, DocumentText, Events;
    Agreement.ParsersAgree(e);
    var before', v', after' := DocumentRecovered(e);
    StopsAtEnd(e);
    assert e.text[..Recursive.Parse(e).pos] == e.text;
    DocumentUnique(e, before, v, after, before', v', after');
  }

  /** Where NaN and Infinity are allowed, `NaInf` is accepted, although the documentation
      of the flag has no such name. */
  lemma MisspeltInfinity(e: Env)
    requires AcceptsAll(e) && e.flags.nanAndInf && e.text == [0x4E, 0x61, 0x49, 0x6E, 0x66]
    ensures Recursive.Parse(e).Ok() && Iterative.Parse(e).Ok()
  {
    hide Recursive.Parse, Iterative.Parse, AcceptsAll, IsSpecial;
    SpecialNames(e.text);
    var v := NumberTree(Numeral(false, e.text, None, None));
    assert [] + e.text == e.text && e.text + [] == e.text;
    DocumentParsed(e, [], v, []);
    Agreement.ParsersAgree(e);
  }

  // With the stop flag

  /** Does the text begin with a value of the grammar, behind white space, that ends in
      front of what follows? */
  ghost predicate BeginsWithValue(e: Env) {
    exists before, v :: IsBlank(e.flags.comments, before) && IsTree(e, v) && StandsFirst(e, before, v)
  }

  predicate StandsFirst(e: Env, before: Text, v: Tree) {
    && Occurs(e.text, 0, before) && Occurs(e.text, |before|, TreeText(v))
    && Ends(v, At(e.text, |before| + |TreeText(v)|))
  }

  /** With the stop flag, both parsers accept exactly the texts that begin with a value,
      whatever follows it. */
  lemma StoppedExactly(e: Env)
    requires AcceptsAll(e) && e.flags.stopWhenDone
    ensures Recursive.Parse(e).Ok() <==> BeginsWithValue(e)
    ensures Iterative.Parse(e).Ok() <==> BeginsWithValue(e)
  {
    hide Recursive.Parse, Iterative.Parse, StandsFirst, IsBlank, IsTree, AcceptsAll;
    Agreement.ParsersAgree(e);
    if Recursive.Parse(e).Ok() { StoppedRecovered(e); }
    if BeginsWithValue(e) {
      var before, v :| IsBlank(e.flags.comments, before) && IsTree(e, v) && StandsFirst(e, before, v);
      StoppedParsed(e, before, v);
    }
  }

  lemma StoppedRecovered(e: Env)
    requires Recursive.Parse(e).Ok() && e.flags.stopWhenDone
    ensures BeginsWithValue(e)
  {
    hide Blank, Skipped, TreeText, Recursive.Value, IsBlank, Events, IsTree, Ends;
    BlankRecovered(e, Recursive.START);
    var before := Skipped(e, Recursive.START);
    var v := TreeRecovered(e, State(|before|, [], None));
    assert StandsFirst(e, before, v);
  }

  /** They stop behind the value, having sent its events. */
  lemma StoppedParsed(e: Env, before: Text, v: Tree)
    requires AcceptsAll(e) && e.flags.stopWhenDone
    requires IsBlank(e.flags.comments, before) && IsTree(e, v) && StandsFirst(e, before, v)
    ensures var r, i := Recursive.Parse(e), Iterative.Parse(e);
            && r.Ok() && i.Ok() && r.events == i.events == Events(e, v)
            && r.pos == i.pos == |before| + |TreeText(v)|
  {
    hide Blank, TreeText, Recursive.Value, IsBlank, Events, AcceptsAll, Ends, Occurs, IsTree, Iterative.Parse;
    TreeAt(e, e.text, |before|, v);
    BlankParsed(e, Recursive.START, before);
    TreeParsed(e, State(|before|, [], None), v);
    assert [] + Events(e, v) == Events(e, v);
    Agreement.ParsersAgree(e);
  }
}
