/** Every text of the grammar is parsed, to the events of its tree. */
module Completeness {
  import opened Bytes
  import opened Sax
  import opened Lexer
  import opened ParseState
  import opened Grammar
  import opened Leaves
  import opened Numerals
  import Recursive
  import Utf8

  ghost predicate AcceptsAll(e: Env) {
    forall events :: e.handler(events)
  }

  lemma Sent(e: Env, s: State, pos: nat, event: Event, reported: nat)
    requires AcceptsAll(e) && s.Ok()
    ensures Send(e, s, pos, event, reported) == State(pos, s.events + [event], None)
  {
  }

  /** White space of the grammar, with a token behind it, is skipped. */
  lemma BlankParsed(e: Env, s: State, w: Text)
    requires Within(e, s) && IsBlank(e.flags.comments, w) && Occurs(e.text, s.pos, w)
    requires Solid(At(e.text, s.pos + |w|))
    ensures Blank(e, s) == s.(pos := s.pos + |w|)
  {
    SkipsBlank(e.text, s.pos, e.flags.comments, w);
  }

  lemma LastBlankParsed(e: Env, s: State, w: Text)
    requires Within(e, s) && IsLastBlank(e.flags.comments, w) && Occurs(e.text, s.pos, w)
    requires s.pos + |w| == |e.text|
    ensures Blank(e, s) == s.(pos := |e.text|)
  {
    SkipsLastBlank(e.text, s.pos, e.flags.comments, w);
  }

  /** Can this byte begin a value? */
  predicate Begins(c: Byte) {
    || c == 0x6E || c == 0x74 || c == 0x66 || c == QUOTE || c == LBRACE || c == LBRACKET
    || c == MINUS || IsDigit(c) || c == UPPER_N || c == UPPER_I
  }

  lemma TreeBegins(e: Env, v: Tree)
    requires IsTree(e, v)
    ensures TreeText(v) != [] && Begins(TreeText(v)[0])
    ensures TreeText(v)[0] == LBRACE <==> v.ObjectTree?
    ensures TreeText(v)[0] == LBRACKET <==> v.ArrayTree?
    ensures TreeText(v)[0] == QUOTE <==> v.StringTree?
    ensures TreeText(v)[0] == 0x6E <==> v.NullTree?
    ensures TreeText(v)[0] == 0x74 || TreeText(v)[0] == 0x66 <==> v.BoolTree?
  {
    hide IsSpecial;
    if v.NumberTree? && !IsWhole(v.n.whole) { SpecialFirst(v.n.whole); }
  }

  lemma TreeAt(e: Env, t: Text, p: nat, v: Tree)
    requires IsTree(e, v) && Occurs(t, p, TreeText(v))
    ensures p < |t| && At(t, p) == TreeText(v)[0] && Begins(At(t, p))
  {
    TreeBegins(e, v);
    OccursAt(t, p, TreeText(v), 0);
  }

  lemma NameParsed(t: Text, p: nat, word: Text, event: Event)
    requires word != [] && (forall i :: 0 <= i < |word| ==> word[i] != 0) && Occurs(t, p, word)
    ensures p < |t| && t[p] == word[0]
    ensures Word(t, p, word, event) == Leaf(p + |word|, event, p + |word|)
  {
    OccursAt(t, p, word, 0);
    MatchedOccurs(t, p, word);
  }

  lemma StringParsed(e: Env, p: nat, items: seq<Item>, isKey: bool)
    requires AreItems(items, e.flags.validateEncoding) && Occurs(e.text, p, QuotedText(items))
    ensures At(e.text, p) == QUOTE
    ensures var s := ItemsValue(items, e.flags.validateEncoding);
            var q := p + |QuotedText(items)|;
            ParsedString(e, p, isKey) == Leaf(q, if isKey then Key(s) else String(s), q)
  {
    OccursFirst(e.text, p, QUOTE, ItemsText(items) + [QUOTE]);
    ItemsRead(e.text, p + 1, items, e.flags.validateEncoding, []);
    assert [] + ItemsValue(items, e.flags.validateEncoding) == ItemsValue(items, e.flags.validateEncoding);
  }

  predicate IsLeafTree(v: Tree) {
    !v.ArrayTree? && !v.ObjectTree?
  }

  lemma DelimiterEnds(v: Tree, c: Byte)
    requires Delimits(c)
    ensures Ends(v, c)
  {
  }

  lemma ScalarParsed(e: Env, p: nat, v: Tree)
    requires IsTree(e, v) && IsLeafTree(v) && Occurs(e.text, p, TreeText(v))
    requires Ends(v, At(e.text, p + |TreeText(v)|))
    ensures var leaf := Scalar(e, p);
            leaf.Leaf? && leaf.pos == p + |TreeText(v)| && [leaf.event] == Events(e, v)
  {
    hide Number, NumeralText, IsNumeral, InRange, NumeralEvent, QuotedText, Prolongs, ItemsValue, StringFrom;
    match v
    case NullTree => NameParsed(e.text, p, NULL_NAME, Null);
    case BoolTree(b) =>
      if b { NameParsed(e.text, p, TRUE_NAME, Bool(true)); } else { NameParsed(e.text, p, FALSE_NAME, Bool(false)); }
    case StringTree(items) => StringParsed(e, p, items, false);
    case NumberTree(n) =>
      TreeAt(e, e.text, p, v);
      TreeBegins(e, v);
      NumeralRead(e, p, n);
  }

  lemma {:induction false} TreeParsed(e: Env, s: State, v: Tree)
    requires Within(e, s) && AcceptsAll(e) && IsTree(e, v)
    requires Occurs(e.text, s.pos, TreeText(v)) && Ends(v, At(e.text, s.pos + |TreeText(v)|))
    ensures Recursive.Value(e, s) == State(s.pos + |TreeText(v)|, s.events + Events(e, v), None)
    decreases v, 1
  {
    hide Scalar, Send, AcceptsAll, Ends;
    TreeAt(e, e.text, s.pos, v);
    TreeBegins(e, v);
    match v
    case ArrayTree(w, x) => ArrayParsed(e, s, w, x);
    case ObjectTree(w, x) => ObjectParsed(e, s, w, x);
    case _ =>
      ScalarParsed(e, s.pos, v);
      var leaf := Scalar(e, s.pos);
      Sent(e, s, leaf.pos, leaf.event, leaf.reported);
  }

  lemma {:induction false} ArrayParsed(e: Env, s: State, w: Text, x: Elements)
    requires Within(e, s) && AcceptsAll(e) && IsTree(e, ArrayTree(w, x))
    requires Occurs(e.text, s.pos, TreeText(ArrayTree(w, x)))
    ensures At(e.text, s.pos) == LBRACKET
    ensures var v := ArrayTree(w, x);
            Recursive.Array(e, s) == State(s.pos + |TreeText(v)|, s.events + Events(e, v), None)
    decreases ArrayTree(w, x), 0
  {
    hide Send, Blank, AcceptsAll, ElementsText, Recursive.Elements, ElementsEvents, IsWs, IsBlank;
    var t, p := e.text, s.pos;
    OccursFirst(t, p, LBRACKET, w + (ElementsText(x) + [RBRACKET]));
    OccursConcat(t, p + 1, w, ElementsText(x) + [RBRACKET]);
    var q := p + 1 + |w|;
    ElementsBegin(e, t, q, x);
    Sent(e, s, p + 1, StartArray, p + 1);
    var s1 := State(p + 1, s.events + [StartArray], None);
    BlankParsed(e, s1, w);
    var s2 := s1.(pos := q);
    if x.NoElements? {
      NoElementsText();
      Sent(e, s2, q + 1, EndArray(0), q + 1);
      assert s.events + [StartArray] + [EndArray(0)] == s.events + ([StartArray] + [] + [EndArray(0)]);
    } else {
      ElementsParsed(e, s2, x, 0);
      assert s.events + [StartArray] + ElementsEvents(e, x) + [EndArray(ElementCount(x))]
          == s.events + ([StartArray] + ElementsEvents(e, x) + [EndArray(ElementCount(x))]);
    }
  }

  lemma NoElementsText()
    ensures ElementsText(NoElements) == [] && MembersText(NoMembers) == []
    ensures ElementsText(TrailingElements) == [] && MembersText(TrailingMembers) == []
    ensures forall e :: ElementsEvents(e, NoElements) == [] && MembersEvents(e, NoMembers) == []
  {
  }

  /** The byte where a list of elements begins, or the bracket behind an empty list. */
  lemma ElementsBegin(e: Env, t: Text, q: nat, x: Elements)
    requires AreElements(e, x) && Occurs(t, q, ElementsText(x) + [RBRACKET])
    ensures Solid(At(t, q)) && (At(t, q) == RBRACKET <==> !x.Elements?)
  {
    OccursConcat(t, q, ElementsText(x), [RBRACKET]);
    if x.Elements? {
      OccursConcat(t, q, TreeText(x.v),
                   x.w1 + (if x.rest.NoElements? then [] else [COMMA] + (x.w2 + ElementsText(x.rest))));
      TreeAt(e, t, q, x.v);
    } else {
      OccursAt(t, q, [RBRACKET], 0);
    }
  }

  /** The text behind a complete element, up to the end of its array. */
  function ElementEndText(x: Elements): Text
    requires x.Elements?
  {
    if x.rest.NoElements? then [RBRACKET] else [COMMA] + (x.w2 + (ElementsText(x.rest) + [RBRACKET]))
  }

  lemma ElementsTextSplit(x: Elements)
    requires x.Elements?
    ensures ElementsText(x) + [RBRACKET] == TreeText(x.v) + (x.w1 + ElementEndText(x))
  {
    hide TreeText;
    var m := if x.rest.NoElements? then [] else [COMMA] + (x.w2 + ElementsText(x.rest));
    assert m + [RBRACKET] == ElementEndText(x);
    assert x.w1 + m + [RBRACKET] == x.w1 + (m + [RBRACKET]);
    assert TreeText(x.v) + (x.w1 + m) + [RBRACKET] == TreeText(x.v) + (x.w1 + m + [RBRACKET]);
  }

  /** A value with white space and then a comma or a bracket behind it is delimited. */
  lemma BlankDelimits(t: Text, q: nat, comments: bool, w: Text)
    requires IsBlank(comments, w) && Occurs(t, q, w) && Delimits(At(t, q + |w|))
    ensures Delimits(At(t, q))
  {
    if w != [] {
      BlankFirst(comments, w);
      OccursAt(t, q, w, 0);
    }
  }

  lemma BlankFirst(comments: bool, w: Text)
    requires IsBlank(comments, w) && w != []
    ensures Space(w[0]) || w[0] == SLASH
  {
  }

  lemma {:induction false} ElementsParsed(e: Env, s: State, x: Elements, n: nat)
    requires Within(e, s) && AcceptsAll(e) && AreElements(e, x) && x.Elements?
    requires Occurs(e.text, s.pos, ElementsText(x) + [RBRACKET])
    ensures Recursive.Elements(e, s, n) ==
            State(s.pos + |ElementsText(x)| + 1,
                  s.events + ElementsEvents(e, x) + [EndArray(n + ElementCount(x))], None)
    decreases x, 1
  {
    hide Blank, AcceptsAll, TreeText, Recursive.Value, Recursive.ElementEnd, Events, IsBlank, Occurs, ElementsText,
      ElementEndText, Delimits, Ends;
    var t, v, z := e.text, TreeText(x.v), ElementEndText(x);
    var q := s.pos + |v|;
    ElementsTextSplit(x);
    OccursConcat(t, s.pos, v, x.w1 + z);
    OccursConcat(t, q, x.w1, z);
    ElementEndBegins(t, q, e.flags.comments, x);
    DelimiterEnds(x.v, At(t, q));
    TreeParsed(e, s, x.v);
    var s1 := State(q, s.events + Events(e, x.v), None);
    BlankParsed(e, s1, x.w1);
    ElementEndParsed(e, s1.(pos := q + |x.w1|), x, n);
    var y := ElementsEvents(e, x.rest);
    assert s.events + Events(e, x.v) + y == s.events + (Events(e, x.v) + y);
  }

  lemma ElementEndBegins(t: Text, d: nat, comments: bool, x: Elements)
    requires x.Elements? && IsBlank(comments, x.w1) && Occurs(t, d, x.w1) && Occurs(t, d + |x.w1|, ElementEndText(x))
    ensures Delimits(At(t, d)) && Solid(At(t, d + |x.w1|))
    ensures At(t, d + |x.w1|) == if x.rest.NoElements? then RBRACKET else COMMA
  {
    OccursAt(t, d + |x.w1|, ElementEndText(x), 0);
    BlankDelimits(t, d, comments, x.w1);
  }

  lemma {:induction false} ElementEndParsed(e: Env, s: State, x: Elements, n: nat)
    requires Within(e, s) && AcceptsAll(e) && AreElements(e, x) && x.Elements?
    requires Occurs(e.text, s.pos, ElementEndText(x))
    ensures Recursive.ElementEnd(e, s, n) ==
            State(s.pos + |ElementEndText(x)|,
                  s.events + ElementsEvents(e, x.rest) + [EndArray(n + ElementCount(x))], None)
    decreases x, 0
  {
    hide Send, Blank, AcceptsAll, IsBlank, Occurs, Recursive.Elements, TreeText;
    var t := e.text;
    OccursAt(t, s.pos, ElementEndText(x), 0);
    if x.rest.NoElements? {
      Sent(e, s, s.pos + 1, EndArray(n + 1), s.pos + 1);
      assert s.events + [] == s.events;
    } else {
      OccursFirst(t, s.pos, COMMA, x.w2 + (ElementsText(x.rest) + [RBRACKET]));
      OccursConcat(t, s.pos + 1, x.w2, ElementsText(x.rest) + [RBRACKET]);
      var q := s.pos + 1 + |x.w2|;
      ElementsBegin(e, t, q, x.rest);
      BlankParsed(e, s.(pos := s.pos + 1), x.w2);
      if x.rest.Elements? {
        ElementsParsed(e, s.(pos := q), x.rest, n + 1);
      } else {
        Sent(e, s.(pos := q), q + 1, EndArray(n + 1), q);
        assert s.events + [] == s.events;
      }
    }
  }

  lemma {:induction false} ObjectParsed(e: Env, s: State, w: Text, x: Members)
    requires Within(e, s) && AcceptsAll(e) && IsTree(e, ObjectTree(w, x))
    requires Occurs(e.text, s.pos, TreeText(ObjectTree(w, x)))
    ensures At(e.text, s.pos) == LBRACE
    ensures var v := ObjectTree(w, x);
            Recursive.Object(e, s) == State(s.pos + |TreeText(v)|, s.events + Events(e, v), None)
    decreases ObjectTree(w, x), 0
  {
    hide Send, Blank, AcceptsAll, MembersText, Recursive.Members, MembersEvents, IsWs, IsBlank;
    var t, p := e.text, s.pos;
    OccursFirst(t, p, LBRACE, w + (MembersText(x) + [RBRACE]));
    OccursConcat(t, p + 1, w, MembersText(x) + [RBRACE]);
    var q := p + 1 + |w|;
    MembersBegin(e, t, q, x);
    Sent(e, s, p + 1, StartObject, p + 1);
    var s1 := State(p + 1, s.events + [StartObject], None);
    BlankParsed(e, s1, w);
    var s2 := s1.(pos := q);
    if x.NoMembers? {
      NoElementsText();
      Sent(e, s2, q + 1, EndObject(0), q + 1);
      assert s.events + [StartObject] + [EndObject(0)] == s.events + ([StartObject] + [] + [EndObject(0)]);
    } else {
      MembersParsed(e, s2, x, 0);
      assert s.events + [StartObject] + MembersEvents(e, x) + [EndObject(MemberCount(x))]
          == s.events + ([StartObject] + MembersEvents(e, x) + [EndObject(MemberCount(x))]);
    }
  }

  lemma MembersBegin(e: Env, t: Text, q: nat, x: Members)
    requires AreMembers(e, x) && Occurs(t, q, MembersText(x) + [RBRACE])
    ensures Solid(At(t, q))
    ensures At(t, q) == if x.Members? then QUOTE else RBRACE
  {
    var s := MembersText(x) + [RBRACE];
    assert s[0] == if x.Members? then QUOTE else RBRACE;
    OccursAt(t, q, s, 0);
  }

  /** The text of a member from the colon on, up to the end of its object. */
  function MemberText(x: Members): Text
    requires x.Members?
  {
    [COLON] + (x.wc + (TreeText(x.v) + (x.w1 + MemberEndText(x))))
  }

  /** The text behind a complete member, up to the end of its object. */
  function MemberEndText(x: Members): Text
    requires x.Members?
  {
    if x.rest.NoMembers? then [RBRACE] else [COMMA] + (x.w2 + (MembersText(x.rest) + [RBRACE]))
  }

  lemma MembersTextSplit(x: Members)
    requires x.Members?
    ensures MembersText(x) + [RBRACE] == QuotedText(x.name) + (x.wn + MemberText(x))
  {
    hide TreeText, QuotedText;
    var m := if x.rest.NoMembers? then [] else [COMMA] + (x.w2 + MembersText(x.rest));
    assert m + [RBRACE] == MemberEndText(x);
    AppendInside(QuotedText(x.name), x.wn, x.wc, TreeText(x.v), x.w1, m, [RBRACE]);
  }

  lemma AppendInside(a: Text, b: Text, c: Text, d: Text, f: Text, m: Text, z: Text)
    ensures a + (b + ([COLON] + (c + (d + (f + m))))) + z == a + (b + ([COLON] + (c + (d + (f + (m + z))))))
  {
    assert f + m + z == f + (m + z);
    assert d + (f + m) + z == d + (f + m + z);
    assert c + (d + (f + m)) + z == c + (d + (f + m) + z);
    assert [COLON] + (c + (d + (f + m))) + z == [COLON] + (c + (d + (f + m)) + z);
    assert b + ([COLON] + (c + (d + (f + m)))) + z == b + ([COLON] + (c + (d + (f + m))) + z);
  }

  lemma {:induction false} MembersParsed(e: Env, s: State, x: Members, n: nat)
    requires Within(e, s) && AcceptsAll(e) && AreMembers(e, x) && x.Members?
    requires Occurs(e.text, s.pos, MembersText(x) + [RBRACE])
    ensures Recursive.Members(e, s, n) ==
            State(s.pos + |MembersText(x)| + 1,
                  s.events + MembersEvents(e, x) + [EndObject(n + MemberCount(x))], None)
    decreases x, 2
  {
    hide Send, Blank, AcceptsAll, TreeText, QuotedText, MembersText, MemberText, IsBlank, Occurs, Recursive.Member,
      Events, ItemsValue, AreItems, StringFrom, ParsedString;
    var t := e.text;
    var a := s.pos + |QuotedText(x.name)|;
    MembersTextSplit(x);
    OccursConcat(t, s.pos, QuotedText(x.name), x.wn + MemberText(x));
    OccursConcat(t, a, x.wn, MemberText(x));
    ColonFirst(t, a + |x.wn|, x);
    StringParsed(e, s.pos, x.name, true);
    var key := Key(ItemsValue(x.name, e.flags.validateEncoding));
    Sent(e, s, a, key, a);
    var s1 := State(a, s.events + [key], None);
    BlankParsed(e, s1, x.wn);
    MemberParsed(e, s1.(pos := a + |x.wn|), x, n);
    var y := MembersEvents(e, x.rest);
    assert s.events + [key] + (Events(e, x.v) + y) == s.events + ([key] + Events(e, x.v) + y);
  }

  lemma ColonFirst(t: Text, p: nat, x: Members)
    requires x.Members? && Occurs(t, p, MemberText(x))
    ensures At(t, p) == COLON && Solid(COLON) && p < |t|
  {
    OccursAt(t, p, MemberText(x), 0);
  }

  lemma {:induction false} MemberParsed(e: Env, s: State, x: Members, n: nat)
    requires Within(e, s) && AcceptsAll(e) && AreMembers(e, x) && x.Members?
    requires Occurs(e.text, s.pos, MemberText(x))
    ensures Recursive.Member(e, s, n) ==
            State(s.pos + |MemberText(x)|,
                  s.events + (Events(e, x.v) + MembersEvents(e, x.rest)) + [EndObject(n + MemberCount(x))], None)
    decreases x, 1
  {
    hide Send, Blank, AcceptsAll, TreeText, MembersText, MemberEndText, IsBlank, Occurs, Recursive.MemberEnd,
      Recursive.Value, Events, AreItems, Delimits, Ends;
    var t, v, z := e.text, TreeText(x.v), MemberEndText(x);
    var c := s.pos + 1 + |x.wc|;
    var d := c + |v|;
    OccursFirst(t, s.pos, COLON, x.wc + (v + (x.w1 + z)));
    OccursConcat(t, s.pos + 1, x.wc, v + (x.w1 + z));
    OccursConcat(t, c, v, x.w1 + z);
    OccursConcat(t, d, x.w1, z);
    TreeAt(e, t, c, x.v);
    BlankParsed(e, s.(pos := s.pos + 1), x.wc);
    MemberEndBegins(t, d, e.flags.comments, x);
    DelimiterEnds(x.v, At(t, d));
    TreeParsed(e, s.(pos := c), x.v);
    var s2 := State(d, s.events + Events(e, x.v), None);
    BlankParsed(e, s2, x.w1);
    MemberEndParsed(e, s2.(pos := d + |x.w1|), x, n);
    var y := MembersEvents(e, x.rest);
    assert s.events + Events(e, x.v) + y == s.events + (Events(e, x.v) + y);
  }

  lemma MemberEndBegins(t: Text, d: nat, comments: bool, x: Members)
    requires x.Members? && IsBlank(comments, x.w1) && Occurs(t, d, x.w1) && Occurs(t, d + |x.w1|, MemberEndText(x))
    ensures Delimits(At(t, d)) && Solid(At(t, d + |x.w1|))
    ensures At(t, d + |x.w1|) == if x.rest.NoMembers? then RBRACE else COMMA
  {
    OccursAt(t, d + |x.w1|, MemberEndText(x), 0);
    BlankDelimits(t, d, comments, x.w1);
  }

  lemma {:induction false} MemberEndParsed(e: Env, s: State, x: Members, n: nat)
    requires Within(e, s) && AcceptsAll(e) && AreMembers(e, x) && x.Members?
    requires Occurs(e.text, s.pos, MemberEndText(x))
    ensures Recursive.MemberEnd(e, s, n) ==
            State(s.pos + |MemberEndText(x)|,
                  s.events + MembersEvents(e, x.rest) + [EndObject(n + MemberCount(x))], None)
    decreases x, 0
  {
    hide Send, Blank, AcceptsAll, IsBlank, Occurs, Recursive.Members, AreItems, QuotedText, TreeText;
    var t := e.text;
    OccursAt(t, s.pos, MemberEndText(x), 0);
    if x.rest.NoMembers? {
      Sent(e, s, s.pos + 1, EndObject(n + 1), s.pos + 1);
      assert s.events + [] == s.events;
    } else {
      OccursFirst(t, s.pos, COMMA, x.w2 + (MembersText(x.rest) + [RBRACE]));
      OccursConcat(t, s.pos + 1, x.w2, MembersText(x.rest) + [RBRACE]);
      var q := s.pos + 1 + |x.w2|;
      MembersBegin(e, t, q, x.rest);
      BlankParsed(e, s.(pos := s.pos + 1), x.w2);
      if x.rest.Members? {
        MembersParsed(e, s.(pos := q), x.rest, n + 1);
      } else {
        Sent(e, s.(pos := q), q + 1, EndObject(n + 1), q);
        assert s.events + [] == s.events;
      }
    }
  }

  /** The document: white space, one value, white space. */
  function DocumentText(before: Text, v: Tree, after: Text): Text {
    before + (TreeText(v) + after)
  }

  predicate IsDocument(e: Env, before: Text, v: Tree, after: Text) {
    IsBlank(e.flags.comments, before) && IsTree(e, v) && IsLastBlank(e.flags.comments, after)
  }

  /** With a handler that never refuses, whatever the other flags, a text of the
      grammar is parsed to the events of its tree. */
  lemma DocumentParsed(e: Env, before: Text, v: Tree, after: Text)
    requires AcceptsAll(e) && IsDocument(e, before, v, after)
    requires e.text == DocumentText(before, v, after)
    ensures var r := Recursive.Parse(e);
            && r.Ok() && r.events == Events(e, v)
            && r.pos == if e.flags.stopWhenDone then |before| + |TreeText(v)| else |e.text|
  {
    hide Blank, TreeText, Recursive.Value, IsBlank, Events, AcceptsAll, Delimits, Ends, Occurs, IsTree, IsLastBlank;
    var t := e.text;
    DocumentPlaces(t, before, v, after);
    TreeAt(e, t, |before|, v);
    BlankParsed(e, Recursive.START, before);
    var s1 := State(|before|, [], None);
    var q := |before| + |TreeText(v)|;
    EndDelimits(t, q, e.flags.comments, after);
    DelimiterEnds(v, At(t, q));
    TreeParsed(e, s1, v);
    assert [] + Events(e, v) == Events(e, v);
    LastBlankParsed(e, State(q, Events(e, v), None), after);
  }

  lemma DocumentPlaces(t: Text, before: Text, v: Tree, after: Text)
    requires t == DocumentText(before, v, after)
    ensures Occurs(t, 0, before) && Occurs(t, |before|, TreeText(v))
    ensures Occurs(t, |before| + |TreeText(v)|, after) && |before| + |TreeText(v)| + |after| == |t|
  {
    hide TreeText;
    assert t[0..|t|] == t;
    OccursConcat(t, 0, before, TreeText(v) + after);
    OccursConcat(t, |before|, TreeText(v), after);
  }

  lemma EndDelimits(t: Text, q: nat, comments: bool, w: Text)
    requires IsLastBlank(comments, w) && Occurs(t, q, w) && q + |w| == |t|
    ensures Delimits(At(t, q))
  {
    hide IsBlank;
    if w != [] {
      OccursAt(t, q, w, 0);
      if IsBlank(comments, w) {
        BlankFirst(comments, w);
      } else {
        var n :| 0 <= n <= |w| && IsBlank(comments, w[..n]) && IsLine(w[n..]);
        if n > 0 { BlankFirst(comments, w[..n]); }
      }
    }
  }
}
