/** The leaf lexers and the grammar: each reads exactly the texts of one kind of leaf. */
module Leaves {
  import opened Bytes
  import opened Sax
  import opened Lexer
  import opened Grammar
  import Utf8

  lemma OccursUpTo(t: Text, p: nat, q: nat)
    requires p <= q <= |t|
    ensures Occurs(t, p, t[p..q])
  {
  }

  lemma OccursFirst(t: Text, p: nat, c: Byte, s: Text)
    ensures Occurs(t, p, [c] + s) <==> p < |t| && t[p] == c && Occurs(t, p + 1, s)
  {
    OccursConcat(t, p, [c], s);
    if p < |t| { assert t[p..p + 1] == [t[p]]; }
  }

  // White space and comments

  /** A byte that ends white space and begins no comment. */
  predicate Solid(c: Byte) {
    !Space(c) && c != 0x2F
  }

  lemma SpaceIsWs(c: Byte)
    ensures Space(c) <==> IsWs(c)
  {
  }

  lemma {:induction false} SpacesBlank(comments: bool, w: Text)
    requires forall i :: 0 <= i < |w| ==> Space(w[i])
    ensures IsBlank(comments, w)
    decreases |w|
  {
    if w != [] { SpacesBlank(comments, w[1..]); }
  }

  lemma {:induction false} BlankConcat(comments: bool, a: Text, b: Text)
    requires IsBlank(comments, a) && IsBlank(comments, b)
    ensures IsBlank(comments, a + b)
    decreases |a|
  {
    hide IsComment, Space;
    if a == [] {
      assert a + b == b;
    } else if Space(a[0]) && IsBlank(comments, a[1..]) {
      BlankConcat(comments, a[1..], b);
      assert (a + b)[1..] == a[1..] + b;
    } else {
      var n :| 1 <= n <= |a| && IsComment(a[..n]) && IsBlank(comments, a[n..]);
      BlankConcat(comments, a[n..], b);
      assert (a + b)[..n] == a[..n] && (a + b)[n..] == a[n..] + b;
    }
  }

  lemma LineLast(comments: bool, a: Text, s: Text)
    requires comments && IsBlank(comments, a) && IsLine(s)
    ensures IsLastBlank(comments, a + s)
  {
    hide IsBlank, IsLine;
    assert (a + s)[..|a|] == a && (a + s)[|a|..] == s;
  }

  lemma CommentBlank(s: Text)
    requires IsComment(s)
    ensures IsBlank(true, s)
  {
    assert s[..|s|] == s && s[|s|..] == [];
  }

  // From the grammar to the lexer

  lemma {:induction false} BlockEndAt(t: Text, q: nat, r: nat)
    requires q <= r && r + 2 <= |t| && t[r] == STAR && t[r + 1] == SLASH
    requires forall i :: q <= i < r ==> t[i] != 0 && !(t[i] == STAR && t[i + 1] == SLASH)
    ensures BlockEnd(t, q) == SkipOk(r + 2)
    decreases r - q
  {
    if q < r { BlockEndAt(t, q + 1, r); }
  }

  lemma {:induction false} LineEndAt(t: Text, q: nat, r: nat)
    requires q <= r <= |t| && (At(t, r) == NEWLINE || At(t, r) == 0)
    requires forall i :: q <= i < r ==> t[i] != 0 && t[i] != NEWLINE
    ensures LineEnd(t, q) == if At(t, r) == 0 then r else r + 1
    decreases r - q
  {
    if q < r { LineEndAt(t, q + 1, r); }
  }

  lemma CommentRead(t: Text, p: nat, s: Text)
    requires IsComment(s) && Occurs(t, p, s)
    ensures At(t, p) == SLASH && Comment(t, p + 1) == SkipOk(p + |s|)
  {
    var n := |s|;
    forall i | p <= i < p + n ensures t[i] == s[i - p] { OccursAt(t, p, s, i - p); }
    if IsBlockComment(s) {
      forall i | p + 2 <= i < p + n - 2 ensures t[i] != 0 && !(t[i] == STAR && t[i + 1] == SLASH) {
        assert t[i] == s[i - p] && t[i + 1] == s[i - p + 1];
      }
      BlockEndAt(t, p + 2, p + n - 2);
    } else {
      forall i | p + 2 <= i < p + n - 1 ensures t[i] != 0 && t[i] != NEWLINE {
        assert t[i] == s[..n - 1][i - p];
      }
      assert s[..n - 1][0] == s[0] && s[..n - 1][1] == s[1];
      LineEndAt(t, p + 2, p + n - 1);
    }
  }

  /** Behind a line of comment that the end of the text ends. */
  lemma LineRead(t: Text, p: nat, s: Text)
    requires IsLine(s) && Occurs(t, p, s) && At(t, p + |s|) == 0
    ensures At(t, p) == SLASH && Comment(t, p + 1) == SkipOk(p + |s|)
  {
    var n := |s|;
    forall i | p <= i < p + n ensures t[i] == s[i - p] { OccursAt(t, p, s, i - p); }
    LineEndAt(t, p + 2, p + n);
  }

  lemma SkipSpace(t: Text, p: nat, comments: bool)
    requires IsWs(At(t, p))
    ensures Skip(t, p, comments) == Skip(t, p + 1, comments)
  {
  }

  lemma SkipComment(t: Text, p: nat, comments: bool, r: nat)
    requires comments && At(t, p) == SLASH && Comment(t, p + 1) == SkipOk(r)
    ensures Skip(t, p, comments) == Skip(t, r, comments)
  {
    hide Comment;
  }

  lemma {:induction false} SkipsConcat(t: Text, p: nat, comments: bool, w: Text)
    requires IsBlank(comments, w) && Occurs(t, p, w)
    ensures Skip(t, p, comments) == Skip(t, p + |w|, comments)
    decreases |w|
  {
    hide Comment, IsComment, Skip;
    if w == [] {
    } else if Space(w[0]) && IsBlank(comments, w[1..]) {
      assert w == [w[0]] + w[1..];
      OccursFirst(t, p, w[0], w[1..]);
      SkipsConcat(t, p + 1, comments, w[1..]);
      SkipSpace(t, p, comments);
    } else {
      var n :| 1 <= n <= |w| && IsComment(w[..n]) && IsBlank(comments, w[n..]);
      assert w == w[..n] + w[n..];
      OccursConcat(t, p, w[..n], w[n..]);
      CommentRead(t, p, w[..n]);
      SkipsConcat(t, p + n, comments, w[n..]);
      SkipComment(t, p, comments, p + n);
    }
  }

  /** White space of the grammar, with something else behind it, is what the reader
      skips. */
  lemma SkipsBlank(t: Text, p: nat, comments: bool, w: Text)
    requires IsBlank(comments, w) && Occurs(t, p, w) && Solid(At(t, p + |w|))
    ensures Skip(t, p, comments) == SkipOk(p + |w|)
  {
    SkipsConcat(t, p, comments, w);
    SkipsNothing(t, p + |w|, comments);
  }

  /** The same at the end of a text. */
  lemma SkipsLastBlank(t: Text, p: nat, comments: bool, w: Text)
    requires IsLastBlank(comments, w) && Occurs(t, p, w) && At(t, p + |w|) == 0
    ensures Skip(t, p, comments) == SkipOk(p + |w|)
  {
    hide IsBlank, Comment, IsLine, Skip;
    SkipsNothing(t, p + |w|, comments);
    if IsBlank(comments, w) {
      SkipsConcat(t, p, comments, w);
    } else {
      var n :| 0 <= n <= |w| && IsBlank(comments, w[..n]) && IsLine(w[n..]);
      assert w == w[..n] + w[n..];
      OccursConcat(t, p, w[..n], w[n..]);
      SkipsConcat(t, p, comments, w[..n]);
      LineRead(t, p + n, w[n..]);
      SkipComment(t, p + n, comments, p + |w|);
    }
  }

  lemma SkipsNothing(t: Text, p: nat, comments: bool)
    requires Solid(At(t, p))
    ensures Skip(t, p, comments) == SkipOk(p)
  {
  }

  // From the lexer to the grammar

  lemma {:induction false} BlockRecovered(t: Text, p: nat, q: nat)
    requires p + 2 <= q <= |t| && t[p] == SLASH && t[p + 1] == STAR && BlockEnd(t, q).SkipOk?
    requires forall i :: p + 2 <= i < q ==> t[i] != 0 && !(t[i] == STAR && At(t, i + 1) == SLASH)
    ensures var r := BlockEnd(t, q).pos;
            p < r <= |t| && IsBlockComment(t[p..r])
    decreases |t| - q
  {
    if At(t, q) == STAR && At(t, q + 1) == SLASH {
      var s := t[p..q + 2];
      assert forall i :: 0 <= i < |s| ==> s[i] == t[p + i];
      forall i | 2 <= i < |s| - 2 ensures !(s[i] == STAR && s[i + 1] == SLASH) {
        assert s[i] == t[p + i] && s[i + 1] == t[p + i + 1] == At(t, p + i + 1);
      }
      forall i | 0 <= i < |s| ensures s[i] != 0 {
        assert s[i] == t[p + i];
      }
    } else {
      BlockRecovered(t, p, q + 1);
    }
  }

  lemma {:induction false} LineRecovered(t: Text, p: nat, q: nat)
    requires p + 2 <= q <= |t| && t[p] == SLASH && t[p + 1] == SLASH
    requires forall i :: p + 2 <= i < q ==> t[i] != 0 && t[i] != NEWLINE
    ensures var r := LineEnd(t, q);
            p < r <= |t| && (IsComment(t[p..r]) || (IsLine(t[p..r]) && At(t, r) == 0))
    decreases |t| - q
  {
    var r := LineEnd(t, q);
    if At(t, q) == 0 || At(t, q) == NEWLINE {
      var s := t[p..q];
      assert forall i :: 0 <= i < |s| ==> s[i] == t[p + i];
      assert IsLine(s);
      if At(t, q) == NEWLINE {
        var c := t[p..q + 1];
        assert c[..|c| - 1] == s && c[|c| - 1] == t[q];
      }
    } else {
      LineRecovered(t, p, q + 1);
    }
  }

  lemma CommentRecovered(t: Text, p: nat)
    requires p < |t| && t[p] == SLASH && Comment(t, p + 1).SkipOk?
    ensures var r := Comment(t, p + 1).pos;
            p < r <= |t| && (IsComment(t[p..r]) || (IsLine(t[p..r]) && At(t, r) == 0))
  {
    hide IsLine, IsBlockComment;
    if At(t, p + 1) == STAR {
      BlockRecovered(t, p, p + 2);
    } else {
      LineRecovered(t, p, p + 2);
    }
  }

  lemma {:induction false} SpacesSkipped(t: Text, p: nat)
    requires p <= |t|
    ensures forall i :: p <= i < SkipWs(t, p) ==> Space(t[i])
    ensures !Space(At(t, SkipWs(t, p)))
    decreases |t| - p
  {
    if IsWs(At(t, p)) { SpacesSkipped(t, p + 1); }
  }

  /** What the reader skips is white space of the grammar; a line of comment that the
      end of the text ends can come last. */
  lemma {:induction false} BlankSkipped(t: Text, p: nat, comments: bool)
    requires p <= |t| && Skip(t, p, comments).SkipOk?
    ensures var r := Skip(t, p, comments).pos;
            && p <= r <= |t| && !Space(At(t, r)) && (comments ==> At(t, r) != SLASH)
            && IsLastBlank(comments, t[p..r]) && (At(t, r) != 0 ==> IsBlank(comments, t[p..r]))
    decreases |t| - p
  {
    hide Comment, IsComment, IsLine, IsBlank, SkipWs;
    var q := SkipWs(t, p);
    SpacesSkipped(t, p);
    var a := t[p..q];
    assert forall i :: 0 <= i < |a| ==> a[i] == t[p + i];
    SpacesBlank(comments, a);
    if comments && At(t, q) == SLASH {
      CommentRecovered(t, q);
      var r := Comment(t, q + 1).pos;
      var s := t[q..r];
      var z := Skip(t, p, comments).pos;
      if IsComment(s) {
        CommentBlank(s);
        BlankConcat(comments, a, s);
        BlankSkipped(t, r, comments);
        BlanksJoin(comments, a + s, t[r..z]);
        assert t[p..z] == a + s + t[r..z];
      } else {
        SkipsNothing(t, r, comments);
        LineLast(comments, a, s);
        assert t[p..z] == a + s;
      }
    }
  }

  lemma BlanksJoin(comments: bool, a: Text, b: Text)
    requires IsBlank(comments, a) && IsLastBlank(comments, b)
    ensures IsLastBlank(comments, a + b) && (IsBlank(comments, b) ==> IsBlank(comments, a + b))
  {
    hide IsBlank, IsLine;
    if IsBlank(comments, b) {
      BlankConcat(comments, a, b);
    } else {
      var n :| 0 <= n <= |b| && IsBlank(comments, b[..n]) && IsLine(b[n..]);
      BlankConcat(comments, a, b[..n]);
      var w := a + b;
      assert w[..|a| + n] == a + b[..n] && w[|a| + n..] == b[n..];
    }
  }

  // Strings

  /** The reader's hexadecimal digits are those of the tables, in either case. */
  lemma HexTable(i: nat)
    requires i < 16
    ensures HexValue(LOWER_HEX[i]) == HexValue(UPPER_HEX[i]) == Some(i)
  {
  }

  lemma HexDigits(c: Byte)
    ensures HexValue(c) == if IsHexDigit(c) then Some(HexOf(c)) else None
  {
    hide HexValue, Place;
    if IsHexDigit(c) {
      HexTable(HexOf(c));
    } else {
      NoHexDigit(c);
    }
  }

  lemma NoHexDigit(c: Byte)
    ensures HexValue(c).Some? ==> IsHexDigit(c)
  {
    if 0x30 <= c <= 0x39 {
      assert LOWER_HEX[c - 0x30] == c;
    } else if 0x41 <= c <= 0x46 {
      assert UPPER_HEX[c - 0x41 + 10] == c;
    } else if 0x61 <= c <= 0x66 {
      assert LOWER_HEX[c - 0x61 + 10] == c;
    }
  }

  /** Four digits from `p`, one by one. */
  lemma Hex4At(t: Text, p: nat)
    ensures Hex4(t, p) ==
            match (HexValue(At(t, p)), HexValue(At(t, p + 1)), HexValue(At(t, p + 2)), HexValue(At(t, p + 3)))
            case (Some(a), Some(b), Some(c), Some(d)) => Some(4096 * a + 256 * b + 16 * c + d)
            case _ => None
  {
    hide HexValue;
    match (HexValue(At(t, p)), HexValue(At(t, p + 1)), HexValue(At(t, p + 2)), HexValue(At(t, p + 3)))
    case (Some(a), Some(b), Some(c), Some(d)) =>
      assert HexFrom(t, p + 4, 0, ((a * 16 + b) * 16 + c) * 16 + d) == Some(4096 * a + 256 * b + 16 * c + d);
    case _ =>
  }

  lemma HexRead(t: Text, p: nat, h: Text)
    requires IsHex4(h) && Occurs(t, p, h)
    ensures Hex4(t, p) == Some(Hex(h)) && |h| == 4
  {
    hide HexValue, IsHexDigit, HexOf, Hex4;
    Hex4At(t, p);
    forall i | 0 <= i < 4 ensures HexValue(At(t, p + i)) == Some(HexOf(h[i])) {
      OccursAt(t, p, h, i);
      HexDigits(h[i]);
    }
  }

  lemma HexAt(t: Text, p: nat)
    requires p <= |t| && Hex4(t, p).Some?
    ensures p + 4 <= |t| && IsHex4(t[p..p + 4]) && Hex(t[p..p + 4]) == Hex4(t, p).value
  {
    hide HexValue, IsHexDigit, HexOf;
    Hex4At(t, p);
    HexDigits(At(t, p));
    HexDigits(At(t, p + 1));
    HexDigits(At(t, p + 2));
    HexDigits(At(t, p + 3));
  }

  /** The reader's table of escapes is that of the grammar. */
  lemma EscapeTable(c: Byte)
    ensures Unescaped(c) == (match EscapeOf(c) case Some(v) => v case None => 0)
    ensures EscapeOf(c).Some? ==> EscapeOf(c).value != 0 && c != LOWER_U
  {
  }

  lemma EscapeAt(t: Text, p: nat, s: Text)
    requires Occurs(t, p, BACKSLASH_U + s)
    ensures At(t, p) == BACKSLASH && At(t, p + 1) == LOWER_U && Occurs(t, p + 2, s)
  {
    OccursConcat(t, p, BACKSLASH_U, s);
    OccursAt(t, p, BACKSLASH_U, 0);
    OccursAt(t, p, BACKSLASH_U, 1);
  }

  lemma PairPlaces(t: Text, p: nat, h: Text, l: Text)
    requires |h| == 4 && |l| == 4 && Occurs(t, p, ItemText(Pair(h, l)))
    ensures At(t, p) == BACKSLASH && At(t, p + 1) == LOWER_U && Occurs(t, p + 2, h)
    ensures At(t, p + 6) == BACKSLASH && At(t, p + 7) == LOWER_U && Occurs(t, p + 8, l)
    ensures |ItemText(Pair(h, l))| == 12
  {
    EscapeAt(t, p, h + (BACKSLASH_U + l));
    OccursConcat(t, p + 2, h, BACKSLASH_U + l);
    EscapeAt(t, p + 6, l);
  }

  lemma HexLength(h: Text)
    requires IsHex4(h)
    ensures |h| == 4
  {
  }

  lemma PairRead(t: Text, p: nat, h: Text, l: Text)
    requires IsItem(Pair(h, l), true) && Occurs(t, p, ItemText(Pair(h, l)))
    ensures UnicodeEscape(t, p) == Chunk(12, ItemValue(Pair(h, l), true))
    ensures At(t, p) == BACKSLASH && At(t, p + 1) == LOWER_U && |ItemText(Pair(h, l))| == 12
  {
    hide Utf8.Encode, HexFrom, Hex4, Hex, At, Occurs, ItemText, IsHexDigit, IsHex4;
    HexLength(h);
    HexLength(l);
    PairPlaces(t, p, h, l);
    HexRead(t, p + 2, h);
    HexRead(t, p + 8, l);
  }

  lemma UnicodeRead(t: Text, p: nat, h: Text)
    requires IsItem(Unicode(h), true) && Occurs(t, p, ItemText(Unicode(h)))
    ensures UnicodeEscape(t, p) == Chunk(6, ItemValue(Unicode(h), true))
    ensures At(t, p) == BACKSLASH && At(t, p + 1) == LOWER_U && |ItemText(Unicode(h))| == 6
  {
    hide Utf8.Encode, HexFrom, Hex4, Hex, IsHex4;
    EscapeAt(t, p, h);
    HexRead(t, p + 2, h);
  }

  lemma RawRead(t: Text, p: nat, s: Text, validate: bool)
    requires IsItem(Raw(s), validate) && Occurs(t, p, s)
    ensures NextPiece(t, p, validate) == Chunk(|s|, s)
  {
    hide Utf8.Valid, UnicodeEscape;
    OccursAt(t, p, s, 0);
    if validate {
      Utf8.CharLength(s);
      Utf8.ValidIsUtf8Char(t, p);
    } else {
      assert s == [s[0]];
    }
  }

  /** The reader takes one piece of the grammar at a time, for what it stands for. */
  lemma ItemRead(t: Text, p: nat, item: Item, validate: bool)
    requires IsItem(item, validate) && Occurs(t, p, ItemText(item))
    ensures NextPiece(t, p, validate) == Chunk(|ItemText(item)|, ItemValue(item, validate))
  {
    hide UnicodeEscape, Utf8.Encode, Utf8.Valid, Utf8.IsUtf8Char, IsHex4, Hex, EscapeOf, Unescaped;
    EscapeTable(LOWER_U);
    match item
    case Raw(s) => RawRead(t, p, s, validate);
    case Escape(c) =>
      EscapeTable(c);
      OccursAt(t, p, ItemText(item), 0);
      OccursAt(t, p, ItemText(item), 1);
    case Unicode(h) => UnicodeRead(t, p, h);
    case Pair(h, l) => PairRead(t, p, h, l);
  }

  /** The piece of the grammar behind a `Chunk`. */
  function ItemAt(t: Text, p: nat, n: nat): Item
    requires p + n <= |t|
  {
    var s := t[p..p + n];
    if At(t, p) != BACKSLASH then Raw(s)
    else if n == 2 then Escape(At(t, p + 1))
    else if n == 6 then Unicode(s[2..])
    else if n == 12 then Pair(s[2..6], s[8..])
    else Raw(s)
  }

  lemma ItemRecovered(t: Text, p: nat, validate: bool)
    requires p <= |t| && NextPiece(t, p, validate).Chunk?
    ensures var c := NextPiece(t, p, validate);
            var item := ItemAt(t, p, c.taken);
            IsItem(item, validate) && ItemText(item) == t[p..p + c.taken] && ItemValue(item, validate) == c.out
  {
    hide UnicodeEscape, Utf8.Encode, Utf8.Valid, Utf8.IsUtf8Char, IsHex4, Hex, EscapeOf, Unescaped;
    EscapeTable(At(t, p + 1));
    var c := NextPiece(t, p, validate);
    var s := t[p..p + c.taken];
    assert s[0] == At(t, p);
    if At(t, p) == BACKSLASH {
      assert s[1] == At(t, p + 1);
      if Unescaped(At(t, p + 1)) == 0 {
        UnicodeRecovered(t, p);
      }
    } else if validate {
      Utf8.ValidIsUtf8Char(t, p);
    }
  }

  lemma UnicodeRecovered(t: Text, p: nat)
    requires p + 2 <= |t| && UnicodeEscape(t, p).Chunk? && t[p] == BACKSLASH && t[p + 1] == LOWER_U
    ensures var c := UnicodeEscape(t, p);
            var item := ItemAt(t, p, c.taken);
            && (c.taken == 6 || c.taken == 12) && p + c.taken <= |t|
            && IsItem(item, true) && IsItem(item, false) && !item.Raw?
            && ItemText(item) == t[p..p + c.taken] && ItemValue(item, true) == c.out
  {
    hide Utf8.Encode, Hex4, IsHex4, Hex;
    var n := UnicodeEscape(t, p).taken;
    HexAt(t, p + 2);
    if n == 12 {
      HexAt(t, p + 8);
      PairText(t, p);
    } else {
      UnicodeText(t, p);
    }
  }

  lemma UnicodeText(t: Text, p: nat)
    requires p + 6 <= |t| && t[p] == BACKSLASH && t[p + 1] == LOWER_U
    ensures var s := t[p..p + 6];
            s[2..] == t[p + 2..p + 6] && s == BACKSLASH_U + s[2..]
  {
    var s := t[p..p + 6];
    assert s[2..] == t[p + 2..p + 6];
    assert s[..2] == BACKSLASH_U;
    assert s == s[..2] + s[2..];
  }

  lemma SubSlice(t: Text, p: nat, n: nat, i: nat, j: nat)
    requires p + n <= |t| && i <= j <= n
    ensures t[p..p + n][i..j] == t[p + i..p + j]
  {
    var s, w := t[p..p + n][i..j], t[p + i..p + j];
    assert |s| == |w|;
    forall k | 0 <= k < |s| ensures s[k] == w[k] {
      assert t[p..p + n][i + k] == t[p + i + k];
    }
  }

  lemma PairText(t: Text, p: nat)
    requires p + 12 <= |t| && t[p] == BACKSLASH && t[p + 1] == LOWER_U
    requires At(t, p + 6) == BACKSLASH && At(t, p + 7) == LOWER_U
    ensures var s := t[p..p + 12];
            && s[2..6] == t[p + 2..p + 6] && s[8..] == t[p + 8..p + 12]
            && s == BACKSLASH_U + (s[2..6] + (BACKSLASH_U + s[8..]))
  {
    var s := t[p..p + 12];
    SubSlice(t, p, 12, 2, 6);
    SubSlice(t, p, 12, 8, 12);
    assert s[8..] == s[8..12];
    assert s[0] == t[p] && s[1] == t[p + 1] && s[6] == At(t, p + 6) && s[7] == At(t, p + 7);
    assert s[..2] == BACKSLASH_U && s[6..8] == BACKSLASH_U;
    assert s == s[..2] + (s[2..6] + (s[6..8] + s[8..]));
  }

  lemma QuoteEnds(t: Text, p: nat, validate: bool)
    ensures NextPiece(t, p, validate).Quote? <==> At(t, p) == QUOTE
  {
  }

  lemma ItemsHead(t: Text, p: nat, a: seq<Item>, validate: bool)
    requires AreItems(a, validate) && Occurs(t, p, ItemsText(a) + [QUOTE])
    ensures a == [] <==> NextPiece(t, p, validate).Quote?
    ensures a != [] ==>
              && Occurs(t, p, ItemText(a[0])) && Occurs(t, p + |ItemText(a[0])|, ItemsText(a[1..]) + [QUOTE])
  {
    hide NextPiece, ItemText, ItemValue, IsItem;
    if a == [] {
      assert [] + [QUOTE] == [QUOTE] + [];
      OccursFirst(t, p, QUOTE, []);
      QuoteEnds(t, p, validate);
    } else {
      var x, y := ItemText(a[0]), ItemsText(a[1..]);
      assert x + y + [QUOTE] == x + (y + [QUOTE]);
      OccursConcat(t, p, x, y + [QUOTE]);
      ItemRead(t, p, a[0], validate);
    }
  }

  /** The decoder reads any string of the grammar, for what its pieces stand for. */
  lemma {:induction false} ItemsRead(t: Text, p: nat, items: seq<Item>, validate: bool, out: Text)
    requires AreItems(items, validate) && Occurs(t, p, ItemsText(items) + [QUOTE])
    ensures StringFrom(t, p, validate, out) ==
            Decoding.Decoded(p + |ItemsText(items)| + 1, out + ItemsValue(items, validate))
    decreases |items|
  {
    hide NextPiece, ItemText, ItemValue, IsItem;
    ItemsHead(t, p, items, validate);
    if items == [] {
      assert out + [] == out;
    } else {
      var v, n := ItemValue(items[0], validate), |ItemText(items[0])|;
      ItemRead(t, p, items[0], validate);
      ItemsRead(t, p + n, items[1..], validate, out + v);
      assert out + v + ItemsValue(items[1..], validate) == out + (v + ItemsValue(items[1..], validate));
    }
  }

  /** Whatever the decoder accepts is a string of the grammar. */
  lemma {:induction false} ItemsRecovered(t: Text, p: nat, validate: bool, out: Text) returns (items: seq<Item>)
    requires p <= |t| && StringFrom(t, p, validate, out).Decoded?
    ensures AreItems(items, validate)
    ensures var r := StringFrom(t, p, validate, out);
            && r.out == out + ItemsValue(items, validate)
            && r.pos == p + |ItemsText(items)| + 1
            && Occurs(t, p, ItemsText(items) + [QUOTE])
    decreases |t| - p
  {
    hide ItemText, ItemValue, NextPiece, IsItem, ItemAt;
    var piece := NextPiece(t, p, validate);
    if piece.Quote? {
      QuoteEnds(t, p, validate);
      items := [];
      OccursFirst(t, p, QUOTE, []);
      assert [QUOTE] + [] == [] + [QUOTE];
      assert out + [] == out;
    } else {
      var n := piece.taken;
      ItemRecovered(t, p, validate);
      var item := ItemAt(t, p, n);
      var rest := ItemsRecovered(t, p + n, validate, out + piece.out);
      items := [item] + rest;
      ItemsCons(t, p, item, rest, validate);
      assert out + piece.out + ItemsValue(rest, validate) == out + (piece.out + ItemsValue(rest, validate));
    }
  }

  lemma ItemsCons(t: Text, p: nat, item: Item, rest: seq<Item>, validate: bool)
    requires IsItem(item, validate) && AreItems(rest, validate)
    requires Occurs(t, p, ItemText(item)) && Occurs(t, p + |ItemText(item)|, ItemsText(rest) + [QUOTE])
    ensures var items := [item] + rest;
            && AreItems(items, validate)
            && ItemsText(items) == ItemText(item) + ItemsText(rest)
            && ItemsValue(items, validate) == ItemValue(item, validate) + ItemsValue(rest, validate)
            && Occurs(t, p, ItemsText(items) + [QUOTE])
  {
    hide ItemText, ItemValue, IsItem;
    assert ([item] + rest)[1..] == rest;
    OccursConcat(t, p, ItemText(item), ItemsText(rest) + [QUOTE]);
    assert ItemText(item) + (ItemsText(rest) + [QUOTE]) == ItemText(item) + ItemsText(rest) + [QUOTE];
  }

  /** The pieces of a string are determined by its text. */
  lemma {:induction false} ItemsUnique(t: Text, p: nat, a: seq<Item>, b: seq<Item>, validate: bool)
    requires AreItems(a, validate) && Occurs(t, p, ItemsText(a) + [QUOTE])
    requires AreItems(b, validate) && Occurs(t, p, ItemsText(b) + [QUOTE])
    ensures a == b
    decreases |a|
  {
    hide NextPiece, ItemText, ItemValue, IsItem;
    if a == [] || b == [] {
      ItemsHead(t, p, a, validate);
      ItemsHead(t, p, b, validate);
    } else {
      ItemsHead(t, p, a, validate);
      ItemsHead(t, p, b, validate);
      ItemUnique(t, p, a[0], b[0], validate);
      ItemsUnique(t, p + |ItemText(a[0])|, a[1..], b[1..], validate);
      assert a == [a[0]] + a[1..] && b == [b[0]] + b[1..];
    }
  }

  lemma ItemUnique(t: Text, p: nat, a: Item, b: Item, validate: bool)
    requires IsItem(a, validate) && Occurs(t, p, ItemText(a))
    requires IsItem(b, validate) && Occurs(t, p, ItemText(b))
    ensures a == b
  {
    ItemIsItemAt(t, p, a, validate);
    ItemIsItemAt(t, p, b, validate);
  }

  lemma ItemIsItemAt(t: Text, p: nat, item: Item, validate: bool)
    requires IsItem(item, validate) && Occurs(t, p, ItemText(item))
    ensures NextPiece(t, p, validate).Chunk?
    ensures item == ItemAt(t, p, NextPiece(t, p, validate).taken)
  {
    hide NextPiece, Utf8.Encode, Utf8.IsUtf8Char, IsHexDigit, Hex, EscapeOf;
    ItemRead(t, p, item, validate);
    var s := ItemText(item);
    OccursAt(t, p, s, 0);
    if item.Escape? { OccursAt(t, p, s, 1); }
    if item.Unicode? { assert s[2..] == item.hex; }
    if item.Pair? { assert s[2..6] == item.hi && s[8..] == item.lo; }
  }
}
