/** The two surface forms of a JSON Pointer (RFC 6901, sections 3 and 6), apart from the
    parser, and that the parser reads exactly them. */
module PointerGrammar {
  import opened Bytes
  import opened Pointers
  import Grammar
  import Leaves
  import Lexer
  import Numerals
  import Printing
  import Utf8

  /** ALPHA / DIGIT / "-" / "." / "_" / "~", section 2.3 of RFC 3986. */
  predicate IsUnreserved(c: Byte) {
    || 0x41 <= c <= 0x5A || 0x61 <= c <= 0x7A || 0x30 <= c <= 0x39
    || c == 0x2D || c == 0x2E || c == 0x5F || c == 0x7E
  }

  lemma Unreserved(c: Byte)
    ensures !NeedPercentEncode(c) <==> IsUnreserved(c)
  {
  }

  /** A percent sign and two hexadecimal digits for each byte. */
  predicate IsTriplets(s: Text, out: Text)
    decreases |out|
  {
    |s| == 3 * |out| &&
    (out == [] ||
     (&& s[0] == 0x25 && Grammar.IsHexDigit(s[1]) && Grammar.IsHexDigit(s[2])
      && 16 * Grammar.HexOf(s[1]) + Grammar.HexOf(s[2]) == out[0] && IsTriplets(s[3..], out[1..])))
  }

  /** A piece of a name and what it stands for. */
  datatype Piece = Piece(text: Text, value: Text)

  predicate IsTilde(uri: bool, s: Text) {
    s == [0x7E] || (uri && IsTriplets(s, [0x7E]))
  }

  /** An escape of section 3, its tilde percent-encoded or not. */
  predicate IsEscaped(uri: bool, x: Piece) {
    && x.text != [] && IsTilde(uri, x.text[..|x.text| - 1])
    && ((x.text[|x.text| - 1] == 0x30 && x.value == [0x7E]) || (x.text[|x.text| - 1] == 0x31 && x.value == [0x2F]))
  }

  /** A character as it is; in a fragment, only if it is unreserved. */
  predicate IsPlain(uri: bool, x: Piece) {
    && |x.text| == 1 && x.text[0] != 0x7E && x.text[0] != 0x2F
    && (uri ==> IsUnreserved(x.text[0])) && x.value == x.text
  }

  /** A percent-encoded character of UTF-8, which may be a solidus, but not a tilde. */
  predicate IsEncoded(x: Piece) {
    Utf8.IsUtf8Char(x.value) && x.value != [0x7E] && IsTriplets(x.text, x.value)
  }

  predicate IsPiece(uri: bool, x: Piece) {
    IsPlain(uri, x) || IsEscaped(uri, x) || (uri && IsEncoded(x))
  }

  predicate ArePieces(uri: bool, xs: seq<Piece>) {
    forall i :: 0 <= i < |xs| ==> IsPiece(uri, xs[i])
  }

  function PiecesText(xs: seq<Piece>): Text {
    if xs == [] then [] else xs[0].text + PiecesText(xs[1..])
  }

  function PiecesValue(xs: seq<Piece>): Text {
    if xs == [] then [] else xs[0].value + PiecesValue(xs[1..])
  }

  predicate AreNames(uri: bool, names: seq<seq<Piece>>) {
    forall i :: 0 <= i < |names| ==> ArePieces(uri, names[i])
  }

  /** Every name behind a solidus. */
  function NamesText(names: seq<seq<Piece>>): Text {
    if names == [] then [] else [0x2F] + (PiecesText(names[0]) + NamesText(names[1..]))
  }

  function NamesTokens(names: seq<seq<Piece>>): seq<Token> {
    if names == [] then []
    else [Token(PiecesValue(names[0]), IndexOf(PiecesValue(names[0])))] + NamesTokens(names[1..])
  }

  function PointerText(uri: bool, names: seq<seq<Piece>>): Text {
    (if uri then [0x23] else []) + NamesText(names)
  }

  // Indices, section 4 of RFC 6901

  /** With its digit at `k`, the name is smaller modulo 2^32 than without it. */
  predicate ShrinksAt(name: Text, k: nat)
    requires Grammar.Digits(name) && k < |name|
  {
    Grammar.ValueOf(name[..k + 1]) % 0x1_0000_0000 < Grammar.ValueOf(name[..k]) % 0x1_0000_0000
  }

  /** The index of any name: a name is an index if it is spelled like a whole number, and
      then stands for its value modulo 2^32 unless the overflow check catches a digit. */
  lemma IndexIs(name: Text)
    ensures IndexOf(name) ==
            if !Grammar.IsWhole(name) || exists k :: 0 <= k < |name| && ShrinksAt(name, k) then 0xFFFF_FFFF
            else Grammar.ValueOf(name) % 0x1_0000_0000
  {
    hide Grammar.ValueOf, Lexer.Decimal;
    Numerals.DigitsAre(name);
    if Grammar.IsWhole(name) {
      IndexExactly(name);
      Numerals.ValueIs(name);
      forall k | 0 <= k < |name| ensures Wraps(name, k) <==> ShrinksAt(name, k) {
        Numerals.ValueIs(name[..k]);
        Numerals.ValueIs(name[..k + 1]);
      }
    }
  }

  // Triplets

  lemma TripletIs(t: Text, p: nat)
    ensures Triplet(t, p) ==
            if p + 3 <= |t| && t[p] == 0x25 && Grammar.IsHexDigit(t[p + 1]) && Grammar.IsHexDigit(t[p + 2])
            then Some(16 * Grammar.HexOf(t[p + 1]) + Grammar.HexOf(t[p + 2])) else None
  {
    hide Grammar.IsHexDigit, Grammar.HexOf, Lexer.HexValue;
    Leaves.HexDigits(At(t, p + 1));
    Leaves.HexDigits(At(t, p + 2));
  }

  /** The parser's triplets are those of the grammar. */
  lemma {:induction false} TripletsAre(t: Text, p: nat, n: nat, out: Text)
    requires |out| == n && p <= |t|
    ensures Triplets(t, p, n) == Some(out) <==> p + 3 * n <= |t| && IsTriplets(t[p..p + 3 * n], out)
    decreases n
  {
    hide Triplet, Grammar.IsHexDigit, Grammar.HexOf;
    TripletIs(t, p);
    if n > 0 && p + 3 <= |t| {
      TripletsAre(t, p + 3, n - 1, out[1..]);
      assert out == [out[0]] + out[1..];
      if p + 3 * n <= |t| {
        var s := t[p..p + 3 * n];
        assert s[0] == t[p] && s[1] == t[p + 1] && s[2] == t[p + 2] && s[3..] == t[p + 3..p + 3 * n];
      }
      var rest := Triplets(t, p + 3, n - 1);
      if Triplet(t, p).Some? && rest.Some? {
        assert ([Triplet(t, p).value] + rest.value)[1..] == rest.value;
      }
    }
  }

  /** `Validate` over triplets reads exactly a percent-encoded character. */
  lemma PercentCharIs(t: Text, p: nat, out: Text)
    requires p <= |t|
    ensures PercentChar(t, p) == Some(out) <==>
            Utf8.IsUtf8Char(out) && p + 3 * |out| <= |t| && IsTriplets(t[p..p + 3 * |out|], out)
  {
    hide Utf8.IsUtf8Char, Utf8.Valid, Utf8.Taken, IsTriplets, Triplet;
    TripletsAre(t, p, |out|, out);
    if Utf8.IsUtf8Char(out) && Triplets(t, p, |out|) == Some(out) {
      Utf8.CharLength(out);
      FirstTriplet(t, p, out);
      Utf8.ValidIsUtf8Char(out, 0);
      assert out[0..|out|] == out;
    }
    if PercentChar(t, p) == Some(out) {
      FirstTriplet(t, p, out);
      Utf8.ValidIsUtf8Char(out, 0);
      assert out[0..|out|] == out;
    }
  }

  lemma FirstTriplet(t: Text, p: nat, out: Text)
    ensures out != [] && Triplets(t, p, |out|) == Some(out) ==> Triplet(t, p) == Some(out[0])
    ensures PercentChar(t, p) == Some(out) ==>
              && |out| == Utf8.Taken(Triplet(t, p).value) && Triplets(t, p, |out|) == Some(out)
              && out[0] == Triplet(t, p).value && Utf8.Valid(out, 0)
  {
    hide Triplet, Utf8.Taken, Utf8.Valid;
    if PercentChar(t, p) == Some(out) {
      var n := Utf8.Taken(Triplet(t, p).value);
      assert Triplets(t, p, 1 + (n - 1)) == Some(out);
    }
  }

  // From the grammar to the parser

  lemma EscapeRead(t: Text, j: nat, c: Byte)
    requires j < |t| && c == 0x7E
    ensures t[j] == 0x30 ==> Unescape(t, j, c) == Unit(j + 1, [0x7E])
    ensures t[j] == 0x31 ==> Unescape(t, j, c) == Unit(j + 1, [0x2F])
  {
  }

  lemma PieceRead(t: Text, i: nat, uri: bool, x: Piece)
    requires IsPiece(uri, x) && Occurs(t, i, x.text)
    ensures i < |t| && t[i] != 0x2F && NextUnit(t, i, uri) == Unit(i + |x.text|, x.value)
  {
    hide PercentChar, IsTriplets, NeedPercentEncode, Utf8.IsUtf8Char, IsPiece, IsPlain, IsEncoded, IsEscaped;
    if IsPlain(uri, x) {
      PlainRead(t, i, uri, x);
    } else if IsEscaped(uri, x) {
      EscapedRead(t, i, uri, x);
    } else {
      assert uri && IsEncoded(x) by { PieceCases(uri, x); }
      EncodedRead(t, i, x);
    }
  }

  lemma PieceCases(uri: bool, x: Piece)
    requires IsPiece(uri, x)
    ensures IsPlain(uri, x) || IsEscaped(uri, x) || (uri && IsEncoded(x))
  {
  }

  lemma PlainRead(t: Text, i: nat, uri: bool, x: Piece)
    requires IsPlain(uri, x) && Occurs(t, i, x.text)
    ensures i < |t| && t[i] != 0x2F && NextUnit(t, i, uri) == Unit(i + |x.text|, x.value)
  {
    hide PercentChar, NeedPercentEncode;
    OccursAt(t, i, x.text, 0);
    Unreserved(t[i]);
    PercentNeeds();
    assert x.text == [t[i]];
  }

  lemma PercentNeeds()
    ensures NeedPercentEncode(PERCENT) && !NeedPercentEncode(TILDE)
  {
  }

  lemma EscapedRead(t: Text, i: nat, uri: bool, x: Piece)
    requires IsEscaped(uri, x) && Occurs(t, i, x.text)
    ensures i < |t| && t[i] != 0x2F && NextUnit(t, i, uri) == Unit(i + |x.text|, x.value)
  {
    hide PercentChar, IsTriplets, NeedPercentEncode, Utf8.IsUtf8Char;
    var k := |x.text| - 1;
    var s := x.text[..k];
    assert x.text == s + [x.text[k]];
    OccursConcat(t, i, s, [x.text[k]]);
    OccursAt(t, i, x.text, k);
    PercentNeeds();
    EscapeRead(t, i + k, 0x7E);
    if s == [0x7E] {
      OccursAt(t, i, s, 0);
    } else {
      TildeTriplet(s);
      OccursAt(t, i, s, 0);
      Leaves.OccursUpTo(t, i, i + 3);
      PercentCharIs(t, i, [0x7E]);
      OneByte();
    }
  }

  lemma OneByte()
    ensures Utf8.IsUtf8Char([0x7E])
  {
  }

  lemma TildeTriplet(s: Text)
    requires IsTriplets(s, [0x7E])
    ensures |s| == 3 && s[0] == 0x25
  {
  }

  lemma EncodedRead(t: Text, i: nat, x: Piece)
    requires IsEncoded(x) && Occurs(t, i, x.text)
    ensures i < |t| && t[i] != 0x2F && NextUnit(t, i, true) == Unit(i + |x.text|, x.value)
  {
    hide PercentChar, NeedPercentEncode, Utf8.IsUtf8Char, IsTriplets;
    NotNothing(x.value);
    FirstPercent(x.text, x.value);
    PercentCharIs(t, i, x.value);
    OccursAt(t, i, x.text, 0);
    if |x.value| == 1 { assert x.value == [x.value[0]]; }
  }

  lemma FirstPercent(s: Text, out: Text)
    requires IsTriplets(s, out) && out != []
    ensures |s| == 3 * |out| && s[0] == 0x25
  {
  }

  lemma NotNothing(s: Text)
    requires Utf8.IsUtf8Char(s)
    ensures 1 <= |s| <= 4
  {
  }

  lemma NameStep(t: Text, i: nat, uri: bool, acc: Text)
    requires i <= |t|
    ensures i == |t| || t[i] == 0x2F ==> NameFrom(t, i, uri, acc) == Name(i, acc)
    ensures i < |t| && t[i] != 0x2F ==>
              var u := NextUnit(t, i, uri);
              NameFrom(t, i, uri, acc) ==
              if u.BadUnit? then BadName(u.code, u.offset) else NameFrom(t, u.next, uri, acc + u.out)
  {
    hide NextUnit;
  }

  lemma ConsPieces(uri: bool, x: Piece, rest: seq<Piece>)
    ensures PiecesText([x] + rest) == x.text + PiecesText(rest)
    ensures PiecesValue([x] + rest) == x.value + PiecesValue(rest)
    ensures IsPiece(uri, x) && ArePieces(uri, rest) ==> ArePieces(uri, [x] + rest)
  {
    hide IsPiece;
    assert ([x] + rest)[1..] == rest;
  }

  lemma ConsOccurs(t: Text, i: nat, next: nat, x: Piece, rest: seq<Piece>)
    requires i <= next <= |t| && x.text == t[i..next] && Occurs(t, next, PiecesText(rest))
    ensures Occurs(t, i, x.text + PiecesText(rest)) && i + |x.text + PiecesText(rest)| == next + |PiecesText(rest)|
  {
    OccursConcat(t, i, x.text, PiecesText(rest));
  }

  lemma {:induction false} NameOfPieces(t: Text, i: nat, uri: bool, xs: seq<Piece>, acc: Text)
    requires ArePieces(uri, xs) && i <= |t| && Occurs(t, i, PiecesText(xs))
    requires var q := i + |PiecesText(xs)|; q < |t| ==> t[q] == 0x2F
    ensures NameFrom(t, i, uri, acc) == Name(i + |PiecesText(xs)|, acc + PiecesValue(xs))
    decreases |xs|
  {
    hide IsPiece, NextUnit, NameFrom, Occurs;
    NameStep(t, i, uri, acc);
    if xs == [] {
      assert acc + [] == acc;
    } else {
      OccursConcat(t, i, xs[0].text, PiecesText(xs[1..]));
      PieceRead(t, i, uri, xs[0]);
      NameOfPieces(t, i + |xs[0].text|, uri, xs[1..], acc + xs[0].value);
      assert acc + xs[0].value + PiecesValue(xs[1..]) == acc + (xs[0].value + PiecesValue(xs[1..]));
    }
  }

  lemma {:induction false} TokensOfNames(t: Text, i: nat, uri: bool, names: seq<seq<Piece>>)
    requires AreNames(uri, names) && Occurs(t, i, NamesText(names)) && i + |NamesText(names)| == |t|
    ensures i < |t| ==> t[i] == 0x2F
    ensures TokensFrom(t, i, uri) == Tokens(NamesTokens(names))
    decreases |names|
  {
    hide ArePieces, PiecesText, PiecesValue, NameFrom, IndexOf, Occurs;
    if names != [] {
      var s, rest := PiecesText(names[0]), NamesText(names[1..]);
      OccursConcat(t, i, [0x2F], s + rest);
      OccursConcat(t, i + 1, s, rest);
      OccursAt(t, i, [0x2F], 0);
      TokensOfNames(t, i + 1 + |s|, uri, names[1..]);
      NameOfPieces(t, i + 1, uri, names[0], []);
      assert [] + PiecesValue(names[0]) == PiecesValue(names[0]);
    }
  }

  /** A text of either form is parsed to its names. */
  lemma PointerParsed(uri: bool, names: seq<seq<Piece>>)
    requires AreNames(uri, names)
    ensures Parse(PointerText(uri, names)) == Tokens(NamesTokens(names))
  {
    hide AreNames, TokensFrom, NamesTokens;
    var t, s := PointerText(uri, names), NamesText(names);
    assert s == [] || s[0] == 0x2F;
    if uri {
      assert t[1..|t|] == s;
      TokensOfNames(t, 1, uri, names);
    } else {
      assert t == s && t[0..|t|] == s;
      TokensOfNames(t, 0, uri, names);
    }
  }

  // From the parser to the grammar

  lemma PieceRecovered(t: Text, i: nat, uri: bool)
    requires i < |t| && t[i] != 0x2F && NextUnit(t, i, uri).Unit?
    ensures var u := NextUnit(t, i, uri);
            IsPiece(uri, Piece(t[i..u.next], u.out))
  {
    hide PercentChar, IsTriplets, NeedPercentEncode, Utf8.IsUtf8Char, IsPlain, IsEncoded, IsEscaped;
    if uri && t[i] == PERCENT {
      PercentRecovered(t, i);
    } else {
      RawRecovered(t, i, uri);
    }
  }

  lemma RawRecovered(t: Text, i: nat, uri: bool)
    requires i < |t| && t[i] != 0x2F && NextUnit(t, i, uri).Unit? && !(uri && t[i] == PERCENT)
    ensures var u := NextUnit(t, i, uri);
            var x := Piece(t[i..u.next], u.out);
            IsPlain(uri, x) || IsEscaped(uri, x)
  {
    hide PercentChar, NeedPercentEncode, IsTriplets;
    Unreserved(t[i]);
    var u := NextUnit(t, i, uri);
    var s := t[i..u.next];
    assert s[0] == t[i];
    if t[i] == TILDE {
      assert s[..|s| - 1] == [0x7E] && s[|s| - 1] == t[i + 1];
    } else {
      assert s == [t[i]];
    }
  }

  lemma PercentRecovered(t: Text, i: nat)
    requires i < |t| && t[i] == PERCENT && NextUnit(t, i, true).Unit?
    ensures var u := NextUnit(t, i, true);
            var x := Piece(t[i..u.next], u.out);
            IsEncoded(x) || IsEscaped(true, x)
  {
    hide PercentChar, IsTriplets, NeedPercentEncode, Utf8.IsUtf8Char;
    var out := PercentChar(t, i).value;
    PercentCharIs(t, i, out);
    var u := NextUnit(t, i, true);
    if |out| == 1 {
      assert out == [out[0]];
      if out[0] == TILDE {
        var s := t[i..u.next];
        assert s[..|s| - 1] == t[i..i + 3] && s[|s| - 1] == t[i + 3];
      }
    }
  }

  lemma NoPieces(t: Text, i: nat, uri: bool)
    requires i <= |t|
    ensures ArePieces(uri, []) && PiecesText([]) == [] && PiecesValue([]) == [] && Occurs(t, i, [])
  {
  }

  lemma {:induction false} NameRecovered(t: Text, i: nat, uri: bool, acc: Text) returns (xs: seq<Piece>)
    requires i <= |t| && NameFrom(t, i, uri, acc).Name?
    ensures ArePieces(uri, xs) && Occurs(t, i, PiecesText(xs))
    ensures NameFrom(t, i, uri, acc) == Name(i + |PiecesText(xs)|, acc + PiecesValue(xs))
    decreases |t| - i
  {
    hide IsPiece, NextUnit, NameFrom, PiecesText, PiecesValue, ArePieces;
    NameStep(t, i, uri, acc);
    if i == |t| || t[i] == 0x2F {
      xs := [];
      NoPieces(t, i, uri);
      assert acc + [] == acc;
    } else {
      var u := NextUnit(t, i, uri);
      PieceRecovered(t, i, uri);
      var rest := NameRecovered(t, u.next, uri, acc + u.out);
      var x := Piece(t[i..u.next], u.out);
      xs := [x] + rest;
      ConsPieces(uri, x, rest);
      ConsOccurs(t, i, u.next, x, rest);
      assert acc + u.out + PiecesValue(rest) == acc + (u.out + PiecesValue(rest));
    }
  }

  lemma {:induction false} NamesRecovered(t: Text, i: nat, uri: bool) returns (names: seq<seq<Piece>>)
    requires i <= |t| && (i < |t| ==> t[i] == 0x2F) && TokensFrom(t, i, uri).Tokens?
    ensures AreNames(uri, names) && t[i..] == NamesText(names)
    decreases |t| - i
  {
    hide ArePieces, PiecesText, NameFrom, IndexOf;
    if i == |t| {
      names := [];
    } else {
      var end := NameFrom(t, i + 1, uri, []).end;
      var xs := NameRecovered(t, i + 1, uri, []);
      var rest := NamesRecovered(t, end, uri);
      names := [xs] + rest;
      assert names[1..] == rest;
      assert t[i + 1..end] == PiecesText(xs);
      assert t[i..] == [t[i]] + (t[i + 1..end] + t[end..]);
    }
  }

  /** The parser accepts exactly the texts of the two forms. */
  lemma PointerExactly(t: Text)
    ensures var uri := At(t, 0) == 0x23;
            Parse(t).Tokens? <==> exists names :: AreNames(uri, names) && t == PointerText(uri, names)
  {
    hide AreNames, TokensFrom, NamesText;
    var uri := At(t, 0) == 0x23;
    if Parse(t).Tokens? {
      var i := if uri then 1 else 0;
      var names := NamesRecovered(t, i, uri);
      assert t == t[..i] + t[i..];
      assert t[..i] == if uri then [0x23] else [];
    }
    if names :| AreNames(uri, names) && t == PointerText(uri, names) {
      PointerParsed(uri, names);
    }
  }

  // Errors

  /** What stands where a name cannot go on. */
  ghost predicate UnitTells(t: Text, i: nat, uri: bool, code: PointerError, offset: nat) {
    i < |t| &&
    match code
    case InvalidPercentEncoding =>
      && uri && t[i] == 0x25 && offset == i
      && forall out :: Utf8.IsUtf8Char(out) && i + 3 * |out| <= |t| ==> !IsTriplets(t[i..i + 3 * |out|], out)
    case CharacterMustPercentEncode => uri && t[i] != 0x25 && !IsUnreserved(t[i]) && offset == i
    case InvalidEscape =>
      && i <= offset <= |t| && IsTilde(uri, t[i..offset]) && At(t, offset) != 0x30 && At(t, offset) != 0x31
    case _ => false
  }

  lemma UnitFails(t: Text, i: nat, uri: bool)
    requires i < |t| && t[i] != 0x2F && NextUnit(t, i, uri).BadUnit?
    ensures var u := NextUnit(t, i, uri);
            UnitTells(t, i, uri, u.code, u.offset)
  {
    hide PercentChar, IsTriplets, NeedPercentEncode, Utf8.IsUtf8Char;
    Unreserved(t[i]);
    if uri && t[i] == PERCENT {
      if PercentChar(t, i).None? {
        forall out | Utf8.IsUtf8Char(out) && i + 3 * |out| <= |t| ensures !IsTriplets(t[i..i + 3 * |out|], out) {
          PercentCharIs(t, i, out);
        }
      } else {
        var out := PercentChar(t, i).value;
        PercentCharIs(t, i, out);
        assert out == [0x7E];
      }
    } else {
      assert t[i..i + 1] == [t[i]];
    }
  }

  /** Pieces of the grammar lead from `i` to the place that the error is about. */
  ghost predicate NameTells(t: Text, i: nat, uri: bool, code: PointerError, offset: nat) {
    exists xs :: && ArePieces(uri, xs) && Occurs(t, i, PiecesText(xs))
                 && UnitTells(t, i + |PiecesText(xs)|, uri, code, offset)
  }

  lemma {:induction false} NameFails(t: Text, i: nat, uri: bool, acc: Text)
    requires i <= |t| && NameFrom(t, i, uri, acc).BadName?
    ensures var n := NameFrom(t, i, uri, acc);
            NameTells(t, i, uri, n.code, n.offset)
    decreases |t| - i
  {
    hide IsPiece, NextUnit, UnitTells, NameFrom, PiecesText, ArePieces;
    NameStep(t, i, uri, acc);
    var u := NextUnit(t, i, uri);
    if u.BadUnit? {
      UnitFails(t, i, uri);
      NoPieces(t, i, uri);
      assert i + |PiecesText([])| == i;
    } else {
      var n := NameFrom(t, i, uri, acc);
      NameFails(t, u.next, uri, acc + u.out);
      var rest :| && ArePieces(uri, rest) && Occurs(t, u.next, PiecesText(rest))
                  && UnitTells(t, u.next + |PiecesText(rest)|, uri, n.code, n.offset);
      PieceRecovered(t, i, uri);
      var x := Piece(t[i..u.next], u.out);
      ConsPieces(uri, x, rest);
      ConsOccurs(t, i, u.next, x, rest);
      assert i + |PiecesText([x] + rest)| == u.next + |PiecesText(rest)|;
    }
  }

  lemma {:induction false} TokensFail(t: Text, i: nat, uri: bool)
    requires i <= |t| && (i < |t| ==> t[i] == 0x2F) && TokensFrom(t, i, uri).BadPointer?
    ensures var p := TokensFrom(t, i, uri);
            exists k :: i <= k < |t| && t[k] == 0x2F && NameTells(t, k + 1, uri, p.code, p.offset)
    decreases |t| - i
  {
    hide NameFrom, IndexOf, NameTells;
    var n := NameFrom(t, i + 1, uri, []);
    if n.BadName? {
      NameFails(t, i + 1, uri, []);
    } else {
      TokensFail(t, n.end, uri);
    }
  }

  /** A pointer that is refused: either it does not begin with a solidus, or behind some
      solidus pieces of a name lead to what the code and the offset say. */
  lemma PointerTells(t: Text)
    requires Parse(t).BadPointer?
    ensures var uri, p := At(t, 0) == 0x23, Parse(t);
            if p.code.TokenMustBeginWithSolidus? then
              p.offset == (if uri then 1 else 0) && p.offset < |t| && t[p.offset] != 0x2F
            else exists k :: 0 <= k < |t| && t[k] == 0x2F && NameTells(t, k + 1, uri, p.code, p.offset)
  {
    hide TokensFrom, NameTells;
    var uri := At(t, 0) == HASH;
    var i := if uri then 1 else 0;
    if i == |t| || t[i] == 0x2F {
      TokensFail(t, i, uri);
      var k :| i <= k < |t| && t[k] == 0x2F && NameTells(t, k + 1, uri, Parse(t).code, Parse(t).offset);
      NotSolidus(t, k + 1, uri, Parse(t).code, Parse(t).offset);
    }
  }

  lemma NotSolidus(t: Text, i: nat, uri: bool, code: PointerError, offset: nat)
    requires NameTells(t, i, uri, code, offset)
    ensures !code.TokenMustBeginWithSolidus?
  {
  }

  // Printing

  /** What is promised for the plain form: a tilde and a solidus are escaped. */
  function PlainName(name: Text): Text {
    if name == [] then []
    else
      (if name[0] == 0x7E then [0x7E, 0x30] else if name[0] == 0x2F then [0x7E, 0x31] else [name[0]])
      + PlainName(name[1..])
  }

  function FragmentByte(c: Byte): Text {
    if c == 0x7E then [0x7E, 0x30]
    else if c == 0x2F then [0x7E, 0x31]
    else if IsUnreserved(c) then [c]
    else [0x25, Grammar.UPPER_HEX[c / 16], Grammar.UPPER_HEX[c % 16]]
  }

  /** And for fragments: what is not unreserved becomes upper-case triplets. */
  function FragmentName(name: Text): Text {
    if name == [] then [] else FragmentByte(name[0]) + FragmentName(name[1..])
  }

  lemma {:induction false} PlainPrinted(name: Text, j: nat)
    requires j <= |name|
    ensures PrintFrom(name, j, false) == Some(PlainName(name[j..]))
    decreases |name| - j
  {
    if j < |name| {
      PlainPrinted(name, j + 1);
      assert name[j..][1..] == name[j + 1..];
    }
  }

  lemma {:induction false} FragmentPrinted(name: Text, j: nat)
    requires j <= |name|
    ensures PrintFrom(name, j, true) ==
            if Utf8.AllValid(name, j) then Some(FragmentName(name[j..])) else None
    decreases |name| - j
  {
    hide FragmentName, PrintAt, Utf8.Taken, Utf8.Valid;
    if j < |name| {
      UriPrints(name, j);
      var r := PrintAt(name, j, true);
      if r.Print? {
        PrintAtIs(name, j);
        FragmentPrinted(name, j + r.taken);
        FragmentJoin(name[j..j + r.taken], name[j + r.taken..]);
        assert name[j..] == name[j..j + r.taken] + name[j + r.taken..];
        NextValid(name, j);
      }
    } else {
      NothingToPrint();
      assert name[j..] == [];
    }
  }

  /** The printed form of a pointer with these names. */
  function FormText(tokens: seq<Token>, uri: bool): Text {
    if tokens == [] then []
    else
      var name := tokens[0].name;
      [0x2F] + ((if uri then FragmentName(name) else PlainName(name)) + FormText(tokens[1..], uri))
  }

  lemma {:induction false} TokensPrinted(tokens: seq<Token>, uri: bool)
    ensures PrintTokens(tokens, uri) ==
            if !uri || forall k :: 0 <= k < |tokens| ==> Utf8.AllValid(tokens[k].name, 0)
            then Some(FormText(tokens, uri)) else None
    decreases |tokens|
  {
    hide PrintFrom, FragmentName, PlainName, Utf8.AllValid;
    if tokens != [] {
      var name := tokens[0].name;
      assert name[0..] == name;
      PlainPrinted(name, 0);
      FragmentPrinted(name, 0);
      TokensPrinted(tokens[1..], uri);
    }
  }

  /** What `Stringify` prints, and when it refuses: a fragment needs names in UTF-8. */
  lemma StringifyIs(tokens: seq<Token>, uri: bool)
    ensures Stringify(tokens, uri) ==
            if !uri || forall k :: 0 <= k < |tokens| ==> Utf8.AllValid(tokens[k].name, 0)
            then Some((if uri then [0x23] else []) + FormText(tokens, uri)) else None
  {
    hide PrintTokens, FormText;
    TokensPrinted(tokens, uri);
    assert [] + FormText(tokens, uri) == FormText(tokens, uri);
  }

  lemma NothingToPrint()
    ensures FragmentName([]) == []
  {
  }

  lemma {:induction false} FragmentJoin(a: Text, b: Text)
    ensures FragmentName(a + b) == FragmentName(a) + FragmentName(b)
    decreases |a|
  {
    hide FragmentByte;
    if a == [] {
      assert a + b == b;
    } else {
      FragmentJoin(a[1..], b);
      assert (a + b)[1..] == a[1..] + b;
    }
  }

  lemma NextValid(name: Text, j: nat)
    requires j < |name| && PrintAt(name, j, true).Print?
    ensures Utf8.AllValid(name, j) <==> Utf8.AllValid(name, j + PrintAt(name, j, true).taken)
  {
    hide NeedPercentEncode, Utf8.Valid, Utf8.Taken;
    AsciiValid(name, j);
  }

  lemma PrintAtIs(name: Text, j: nat)
    requires j < |name| && PrintAt(name, j, true).Print?
    ensures var r := PrintAt(name, j, true);
            r.out == FragmentName(name[j..j + r.taken])
  {
    hide NeedPercentEncode, Utf8.Valid, Utf8.Taken, Utf8.IsUtf8Char;
    var r, c := PrintAt(name, j, true), name[j];
    var s := name[j..j + r.taken];
    Unreserved(c);
    assert s[0] == c;
    if c != TILDE && c != 0x2F && NeedPercentEncode(c) {
      Utf8.ValidIsUtf8Char(name, j);
      CharNeeds(s);
      TripletsPrinted(s);
    } else {
      assert s == [c] && s[1..] == [];
    }
  }

  /** Every byte of a character that must be encoded must be. */
  lemma CharNeeds(s: Text)
    requires Utf8.IsUtf8Char(s) && NeedPercentEncode(s[0]) && s[0] != 0x2F
    ensures forall i :: 0 <= i < |s| ==> !IsUnreserved(s[i]) && s[i] != 0x7E && s[i] != 0x2F
  {
    hide NeedPercentEncode;
    forall i | 0 <= i < |s| ensures !IsUnreserved(s[i]) && s[i] != 0x7E && s[i] != 0x2F {
      Unreserved(s[i]);
      PercentNeeds();
      if i > 0 {
        TailNeeds(s, i);
      }
    }
  }

  lemma TailNeeds(s: Text, i: nat)
    requires Utf8.IsUtf8Char(s) && 0 < i < |s|
    ensures s[i] >= 0x80 && NeedPercentEncode(s[i])
  {
  }

  lemma {:induction false} TripletsPrinted(s: Text)
    requires forall i :: 0 <= i < |s| ==> !IsUnreserved(s[i]) && s[i] != 0x7E && s[i] != 0x2F
    ensures PercentEncoded(s) == FragmentName(s)
    decreases |s|
  {
    if s != [] {
  
      UpperDigit(s[0] / 16);
      UpperDigit(s[0] % 16);
      TripletsPrinted(s[1..]);
    }
  }

  lemma UpperDigit(h: nat)
    requires h < 16
    ensures Printing.HexDigit(h) == Grammar.UPPER_HEX[h]
  {
  }
}
