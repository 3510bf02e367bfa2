/** JSON Pointer (RFC 6901) as `GenericPointer` (pointer.h) parses and prints it. */
module Pointers {
  import opened Bytes
  import opened Lexer
  import Utf8
  import Printing

  const HASH: Byte := 0x23
  const PERCENT: Byte := 0x25
  const TILDE: Byte := 0x7E
  const ZERO: Byte := 0x30
  const ONE: Byte := 0x31

  const TWO32: nat := 0x1_0000_0000
  const INVALID_INDEX: nat := TWO32 - 1

  /** `index` is `INVALID_INDEX` for a name that is no array index. */
  datatype Token = Token(name: Text, index: nat)

  datatype PointerError =
    | TokenMustBeginWithSolidus
    | InvalidEscape
    | InvalidPercentEncoding
    | CharacterMustPercentEncode

  datatype Parsed = Tokens(tokens: seq<Token>) | BadPointer(code: PointerError, offset: nat)

  /** RFC 3986, section 2.3: everything but unreserved characters. */
  predicate NeedPercentEncode(c: Byte) {
    !(|| 0x30 <= c <= 0x39 || 0x41 <= c <= 0x5A || 0x61 <= c <= 0x7A
      || c == 0x2D || c == 0x2E || c == 0x5F || c == TILDE)
  }

  // Parsing

  /** `PercentDecodeStream::Take`: the byte of the triplet at `p`. */
  function Triplet(t: Text, p: nat): Option<Byte> {
    if At(t, p) != PERCENT || p + 3 > |t| then None
    else match (HexValue(At(t, p + 1)), HexValue(At(t, p + 2)))
      case (Some(h), Some(l)) => Some(h * 16 + l)
      case _ => None
  }

  /** The bytes of `n` triplets from `p`. */
  function Triplets(t: Text, p: nat, n: nat): (r: Option<Text>)
    ensures r.Some? ==> |r.value| == n && (p <= |t| ==> p + 3 * n <= |t|)
    decreases n
  {
    if n == 0 then Some([])
    else match (Triplet(t, p), Triplets(t, p + 3, n - 1))
      case (Some(b), Some(s)) => Some([b] + s)
      case _ => None
  }

  /** The UTF-8 sequence that the triplets from `p` spell. */
  function PercentChar(t: Text, p: nat): (r: Option<Text>)
    ensures r.Some? ==> 1 <= |r.value| <= 4 && (p <= |t| ==> p + 3 * |r.value| <= |t|)
  {
    match Triplet(t, p)
    case None => None
    case Some(lead) =>
      match Triplets(t, p, Utf8.Taken(lead))
      case None => None
      case Some(s) => if Utf8.Valid(s, 0) then Some(s) else None
  }

  /** What one turn of the inner loop adds to a name. */
  datatype Unit = Unit(next: nat, out: Text) | BadUnit(code: PointerError, offset: nat)

  /** A character, with the `~` escape that it may begin; the rest of it is at `j`. */
  function Unescape(t: Text, j: nat, c: Byte): (r: Unit)
    ensures r.Unit? ==> |r.out| == 1 && j <= r.next <= j + 1 && (j <= |t| ==> r.next <= |t|)
  {
    if c != TILDE then Unit(j, [c])
    else if j >= |t| then BadUnit(InvalidEscape, j)
    else if t[j] == ZERO then Unit(j + 1, [TILDE])
    else if t[j] == ONE then Unit(j + 1, [SLASH])
    else BadUnit(InvalidEscape, j)
  }

  function NextUnit(t: Text, i: nat, uri: bool): (r: Unit)
    requires i < |t|
    ensures r.Unit? ==> i + |r.out| <= r.next <= |t| && 1 <= |r.out| <= 4
  {
    var c := t[i];
    if uri && c == PERCENT then
      match PercentChar(t, i)
      case None => BadUnit(InvalidPercentEncoding, i)
      case Some(s) => if |s| == 1 then Unescape(t, i + 3, s[0]) else Unit(i + 3 * |s|, s)
    else if uri && NeedPercentEncode(c) then BadUnit(CharacterMustPercentEncode, i)
    else Unescape(t, i + 1, c)
  }

  datatype Name = Name(end: nat, name: Text) | BadName(code: PointerError, offset: nat)

  /** The rest of a name from `i`, when `name` has been decoded before it. */
  function NameFrom(t: Text, i: nat, uri: bool, name: Text): (r: Name)
    requires i <= |t|
    ensures r.Name? ==> i <= r.end <= |t| && (r.end < |t| ==> t[r.end] == SLASH)
    ensures r.Name? ==> name <= r.name && |r.name| - |name| <= r.end - i
    decreases |t| - i
  {
    if i == |t| || t[i] == SLASH then Name(i, name)
    else match NextUnit(t, i, uri)
      case BadUnit(code, offset) => BadName(code, offset)
      case Unit(next, out) => NameFrom(t, next, uri, name + out)
  }

  /** The conversion loop to `SizeType`, with its overflow check. */
  function IndexFrom(name: Text, j: nat, n: nat): (r: nat)
    requires AllDigits(name) && j <= |name| && n < TWO32
    ensures r < TWO32
    decreases |name| - j
  {
    if j == |name| then n
    else
      var m := (n * 10 + (name[j] - 0x30)) % TWO32;
      if m < n then INVALID_INDEX else IndexFrom(name, j + 1, m)
  }

  /** A name that is spelled like an array index: digits, and no leading zero. */
  predicate IsIndexName(name: Text) {
    name != [] && AllDigits(name) && (|name| > 1 ==> name[0] != ZERO)
  }

  function IndexOf(name: Text): (r: nat)
    ensures r < TWO32
  {
    if IsIndexName(name) then IndexFrom(name, 0, 0) else INVALID_INDEX
  }

  function Prepend(tokens: seq<Token>, p: Parsed): Parsed {
    if p.Tokens? then Tokens(tokens + p.tokens) else p
  }

  /** The tokens from position `i`. */
  function TokensFrom(t: Text, i: nat, uri: bool): Parsed
    requires i <= |t| && (i < |t| ==> t[i] == SLASH)
    decreases |t| - i
  {
    if i == |t| then Tokens([])
    else match NameFrom(t, i + 1, uri, [])
      case BadName(code, offset) => BadPointer(code, offset)
      case Name(end, name) => Prepend([Token(name, IndexOf(name))], TokensFrom(t, end, uri))
  }

  function Parse(t: Text): Parsed {
    var uri := At(t, 0) == HASH;
    var i := if uri then 1 else 0;
    if i != |t| && t[i] != SLASH then BadPointer(TokenMustBeginWithSolidus, i) else TokensFrom(t, i, uri)
  }

  // Indices

  lemma {:induction false} DigitsValue(name: Text, j: nat)
    requires AllDigits(name) && j < |name|
    ensures AllDigits(name[..j + 1]) && AllDigits(name[..j])
    ensures Decimal(name[..j + 1]) == Decimal(name[..j]) * 10 + (name[j] - 0x30)
  {
    assert name[..j + 1][..j] == name[..j];
  }

  lemma {:induction false} PrefixValue(name: Text, j: nat)
    requires AllDigits(name) && j <= |name|
    ensures AllDigits(name[..j]) && Decimal(name[..j]) <= Decimal(name)
    decreases |name| - j
  {
    if j == |name| {
      assert name[..j] == name;
    } else {
      DigitsValue(name, j);
      PrefixValue(name, j + 1);
    }
  }

  /** The overflow check catches the digit at `k`: with it the wrapped value is smaller
      than without it. */
  predicate Wraps(name: Text, k: nat)
    requires AllDigits(name) && k < |name|
  {
    Decimal(name[..k + 1]) % TWO32 < Decimal(name[..k]) % TWO32
  }

  lemma WrappedDigit(a: nat, d: nat)
    ensures (a % TWO32 * 10 + d) % TWO32 == (a * 10 + d) % TWO32
  {
    var q := a / TWO32;
    assert a * 10 + d == a % TWO32 * 10 + d + q * 10 * TWO32;
  }

  lemma {:induction false} IndexFromWraps(name: Text, j: nat)
    requires AllDigits(name) && j <= |name|
    ensures AllDigits(name[..j])
    ensures IndexFrom(name, j, Decimal(name[..j]) % TWO32) ==
            if exists k :: j <= k < |name| && Wraps(name, k) then INVALID_INDEX else Decimal(name) % TWO32
    decreases |name| - j
  {
    if j == |name| {
      assert name[..j] == name;
    } else {
      DigitsValue(name, j);
      WrappedDigit(Decimal(name[..j]), name[j] - 0x30);
      if !Wraps(name, j) {
        IndexFromWraps(name, j + 1);
      }
    }
  }

  /** What the conversion with its overflow check computes for every name of digits:
      the invalid index if some digit makes the wrapped value smaller, and otherwise
      the wrapped value, whether or not the name fits 32 bits. */
  lemma IndexExactly(name: Text)
    requires IsIndexName(name)
    ensures IndexOf(name) ==
            if exists k :: 0 <= k < |name| && Wraps(name, k) then INVALID_INDEX else Decimal(name) % TWO32
  {
    assert name[..0] == [];
    IndexFromWraps(name, 0);
  }

  /** Nothing wraps while the value fits. */
  lemma FitsNoWrap(name: Text, k: nat)
    requires AllDigits(name) && k < |name| && AllDigits(name[..k + 1]) && Decimal(name[..k + 1]) < TWO32
    ensures !Wraps(name, k)
  {
    DigitsValue(name, k);
  }

  lemma NoEarlierWrap(name: Text, j: nat)
    requires AllDigits(name) && j <= |name| && AllDigits(name[..j]) && Decimal(name[..j]) < TWO32
    ensures forall k :: 0 <= k < j ==> !Wraps(name, k)
  {
    hide Decimal, Wraps;
    forall k | 0 <= k < j ensures !Wraps(name, k) {
      assert name[..j][..k + 1] == name[..k + 1];
      PrefixValue(name[..j], k + 1);
      FitsNoWrap(name, k);
    }
  }

  /** The index of a name is its decimal value if and only if that fits 32 bits. The
      greatest value that fits is the invalid index. */
  lemma IndexIsValue(name: Text)
    requires IsIndexName(name)
    ensures IndexOf(name) == Decimal(name) <==> Decimal(name) < TWO32
  {
    IndexExactly(name);
    assert name[..|name|] == name;
    if Decimal(name) < TWO32 { NoEarlierWrap(name, |name|); }
  }

  /** When the last digit is the first to overflow, the condition needs no look at the
      prefixes. */
  lemma IndexOverflow(name: Text)
    requires IsIndexName(name) && Decimal(name) >= TWO32 && Decimal(name) / 10 < TWO32
    ensures IndexOf(name) == if Decimal(name) % TWO32 < Decimal(name) / 10 then INVALID_INDEX else Decimal(name) % TWO32
  {
    hide IndexOf, Decimal, Wraps;
    IndexExactly(name);
    LastDigit(name);
    NoEarlierWrap(name, |name| - 1);
    WrapsAtEnd(name);
  }

  lemma LastDigit(name: Text)
    requires AllDigits(name) && name != []
    ensures AllDigits(name[..|name| - 1]) && Decimal(name[..|name| - 1]) == Decimal(name) / 10
  {
    var j := |name| - 1;
    assert name[..j + 1] == name;
    DigitsValue(name, j);
    Tenth(Decimal(name[..j]), name[j] - 0x30);
  }

  lemma Tenth(a: nat, d: nat)
    requires d < 10
    ensures (a * 10 + d) / 10 == a
  {
  }

  lemma WrapsAtEnd(name: Text)
    requires AllDigits(name) && name != []
    requires AllDigits(name[..|name| - 1]) && Decimal(name[..|name| - 1]) < TWO32
    ensures Wraps(name, |name| - 1) <==> Decimal(name) % TWO32 < Decimal(name[..|name| - 1])
  {
    hide Decimal;
    assert name[..|name| - 1 + 1] == name;
  }

  /** 10000000000 is taken for index 1410065408. */
  lemma MissedOverflow()
    ensures var name := [ONE, ZERO, ZERO, ZERO, ZERO, ZERO, ZERO, ZERO, ZERO, ZERO, ZERO];
            IndexOf(name) == 1410065408
  {
    hide IndexOf, IndexFrom, Decimal;
    var name := [ONE, ZERO, ZERO, ZERO, ZERO, ZERO, ZERO, ZERO, ZERO, ZERO, ZERO];
    TenToThe(name, 10);
    assert name[..11] == name;
    IndexOverflow(name);
  }

  function Ten(n: nat): nat {
    if n == 0 then 1 else 10 * Ten(n - 1)
  }

  /** A one and `n` zeros. */
  lemma {:induction false} TenToThe(name: Text, n: nat)
    requires n < |name| && AllDigits(name) && name[0] == ONE && forall i :: 0 < i < |name| ==> name[i] == ZERO
    ensures AllDigits(name[..n + 1]) && Decimal(name[..n + 1]) == Ten(n)
  {
    DigitsValue(name, n);
    if n == 0 {
      assert name[..0] == [];
    } else {
      TenToThe(name, n - 1);
    }
  }

  // Printing

  /** `PercentEncodeStream`. */
  function PercentEncoded(s: Text): (r: Text)
    ensures |r| == 3 * |s|
  {
    if s == [] then []
    else [PERCENT, Printing.HexDigit(s[0] / 16), Printing.HexDigit(s[0] % 16)] + PercentEncoded(s[1..])
  }

  /** What is printed for the character of a name at `j`, and how many bytes it takes. */
  datatype Print = Print(taken: nat, out: Text) | Unprintable

  function PrintAt(name: Text, j: nat, uri: bool): (r: Print)
    requires j < |name|
    ensures r.Print? ==> 1 <= r.taken && j + r.taken <= |name|
  {
    var c := name[j];
    if c == TILDE then Print(1, [TILDE, ZERO])
    else if c == SLASH then Print(1, [TILDE, ONE])
    else if uri && NeedPercentEncode(c) then
      if Utf8.Valid(name, j) then
        Utf8.ValidIsUtf8Char(name, j);
        Print(Utf8.Taken(c), PercentEncoded(name[j..j + Utf8.Taken(c)]))
      else Unprintable
    else Print(1, [c])
  }

  function PrintFrom(name: Text, j: nat, uri: bool): Option<Text>
    requires j <= |name|
    decreases |name| - j
  {
    if j == |name| then Some([])
    else match PrintAt(name, j, uri)
      case Unprintable => None
      case Print(n, out) =>
        match PrintFrom(name, j + n, uri)
        case None => None
        case Some(rest) => Some(out + rest)
  }

  function PrintTokens(tokens: seq<Token>, uri: bool): Option<Text> {
    if tokens == [] then Some([])
    else match (PrintFrom(tokens[0].name, 0, uri), PrintTokens(tokens[1..], uri))
      case (Some(s), Some(rest)) => Some([SLASH] + (s + rest))
      case _ => None
  }

  function Stringify(tokens: seq<Token>, uri: bool): Option<Text> {
    match PrintTokens(tokens, uri)
    case None => None
    case Some(s) => Some(if uri then [HASH] + s else s)
  }

  /** How many bytes of a name the printing of a fragment takes, where a sequence at
      which it fails may lead behind the name. */
  function NameReach(name: Text, j: nat): (n: nat)
    requires j <= |name|
    ensures n <= |name| + 3
    ensures PrintFrom(name, j, true).Some? ==> n == |name|
    decreases |name| - j
  {
    if j == |name| then j
    else match PrintAt(name, j, true)
      case Unprintable => j + Utf8.Taken(name[j])
      case Print(n, _) => NameReach(name, j + n)
  }

  /** Where all the names and their NULs end, when they follow each other from `p`. */
  function NamesEnd(tokens: seq<Token>, p: nat): nat {
    if tokens == [] then p else NamesEnd(tokens[1..], p + |tokens[0].name| + 1)
  }

  /** Where the printing of a fragment stops reading: at the end of the names, or of the
      sequence at which it fails. */
  function Reach(tokens: seq<Token>, p: nat): nat
    decreases |tokens|
  {
    if tokens == [] then p
    else if PrintFrom(tokens[0].name, 0, true).None? then p + NameReach(tokens[0].name, 0)
    else Reach(tokens[1..], p + |tokens[0].name| + 1)
  }

  lemma {:induction false} NamesEndGrows(tokens: seq<Token>, p: nat)
    ensures p <= NamesEnd(tokens, p)
    decreases |tokens|
  {
    if tokens != [] { NamesEndGrows(tokens[1..], p + |tokens[0].name| + 1); }
  }

  /** What can be printed is never read behind its end; otherwise at most two bytes are. */
  lemma {:induction false} ReachBound(tokens: seq<Token>, p: nat)
    ensures Stringify(tokens, true).Some? ==> Reach(tokens, p) == NamesEnd(tokens, p)
    ensures Reach(tokens, p) <= NamesEnd(tokens, p) + 2
    decreases |tokens|
  {
    if tokens != [] {
      ReachBound(tokens[1..], p + |tokens[0].name| + 1);
      NamesEndGrows(tokens[1..], p + |tokens[0].name| + 1);
    }
  }

  /** The name `0xF0`, parsed from a plain pointer, leads two bytes behind its NUL. */
  lemma ReachExample()
    ensures var ts := [Token([0xF0], INVALID_INDEX)];
            Parse([SLASH, 0xF0]) == Tokens(ts) && Reach(ts, 0) == NamesEnd(ts, 0) + 2
  {
    var t, ts := [SLASH, 0xF0], [Token([0xF0], INVALID_INDEX)];
    assert ts[1..] == [];
    assert NextUnit(t, 1, false) == Unit(2, [0xF0]);
    assert NameFrom(t, 2, false, [] + [0xF0]) == Name(2, [0xF0]);
    assert TokensFrom(t, 2, false) == Tokens([]);
    assert !IsDigit([0xF0][0]);
  }

  // What can be printed

  lemma {:induction false} PlainPrints(name: Text, j: nat)
    requires j <= |name|
    ensures PrintFrom(name, j, false).Some?
    decreases |name| - j
  {
    if j < |name| { PlainPrints(name, j + 1); }
  }

  lemma AsciiValid(name: Text, j: nat)
    requires j < |name|
    ensures name[j] < 0x80 ==> Utf8.Valid(name, j) && Utf8.Taken(name[j]) == 1
    ensures name[j] >= 0x80 ==> NeedPercentEncode(name[j])
  {
  }

  lemma {:induction false} UriPrints(name: Text, j: nat)
    requires j <= |name|
    ensures PrintFrom(name, j, true).Some? <==> Utf8.AllValid(name, j)
    decreases |name| - j
  {
    hide Utf8.Valid, Utf8.Taken, NeedPercentEncode;
    if j < |name| {
      AsciiValid(name, j);
      Utf8.ValidIsUtf8Char(name, j);
      if Utf8.Valid(name, j) {
        UriPrints(name, j + Utf8.Taken(name[j]));
      }
      if name[j] < 0x80 { UriPrints(name, j + 1); }
    }
  }

  /** The plain form prints every name, the URI fragment exactly the names in UTF-8. */
  lemma {:induction false} Printable(tokens: seq<Token>, uri: bool)
    ensures Stringify(tokens, uri).Some?
            <==> (uri ==> forall k :: 0 <= k < |tokens| ==> Utf8.IsUtf8Octets(tokens[k].name))
    decreases |tokens|
  {
    hide Utf8.IsUtf8Octets;
    if tokens != [] {
      var name := tokens[0].name;
      Printable(tokens[1..], uri);
      PlainPrints(name, 0);
      UriPrints(name, 0);
      Utf8.AllValidIsUtf8Octets(name, 0);
      assert name[0..] == name;
      assert tokens == [tokens[0]] + tokens[1..];
    }
  }

  // Round trip

  lemma HexDigitValue(n: nat)
    requires n < 16
    ensures HexValue(Printing.HexDigit(n)) == Some(n)
  {
  }

  lemma {:induction false} TripletsEncoded(t: Text, p: nat, s: Text)
    requires Occurs(t, p, PercentEncoded(s))
    ensures Triplets(t, p, |s|) == Some(s)
    decreases |s|
  {
    if s != [] {
      var e := [PERCENT, Printing.HexDigit(s[0] / 16), Printing.HexDigit(s[0] % 16)];
      OccursConcat(t, p, e, PercentEncoded(s[1..]));
      OccursAt(t, p, e, 0);
      OccursAt(t, p, e, 1);
      OccursAt(t, p, e, 2);
      HexDigitValue(s[0] / 16);
      HexDigitValue(s[0] % 16);
      TripletsEncoded(t, p + 3, s[1..]);
      assert s == [s[0]] + s[1..];
    }
  }

  /** A character printed as triplets is read back. */
  lemma PercentRead(t: Text, p: nat, s: Text)
    requires Utf8.IsUtf8Char(s) && Occurs(t, p, PercentEncoded(s))
    ensures PercentChar(t, p) == Some(s) && At(t, p) == PERCENT && p < |t|
  {
    hide Utf8.Taken, Utf8.Valid;
    Utf8.CharLength(s);
    TripletsEncoded(t, p, s);
    assert Triplets(t, p, 1 + (|s| - 1)).Some?;
    assert Triplet(t, p) == Some(s[0]);
    Utf8.ValidIsUtf8Char(s, 0);
    assert s[0..|s|] == s;
  }

  /** What is printed for one character is read back as that character. */
  lemma UnitRead(t: Text, p: nat, name: Text, j: nat, uri: bool)
    requires j < |name| && PrintAt(name, j, uri).Print? && Occurs(t, p, PrintAt(name, j, uri).out)
    ensures var r := PrintAt(name, j, uri);
            && p < |t| && t[p] != SLASH
            && NextUnit(t, p, uri) == Unit(p + |r.out|, name[j..j + r.taken])
  {
    hide Utf8.Valid, Utf8.Taken, PercentChar, Utf8.IsUtf8Char;
    var r := PrintAt(name, j, uri);
    var c := name[j];
    if c == TILDE || c == SLASH {
      OccursAt(t, p, r.out, 0);
      OccursAt(t, p, r.out, 1);
      assert name[j..j + 1] == [c];
    } else if uri && NeedPercentEncode(c) {
      var s := name[j..j + r.taken];
      Utf8.ValidIsUtf8Char(name, j);
      PercentRead(t, p, s);
      assert s[0] == c;
    } else {
      OccursAt(t, p, r.out, 0);
      assert name[j..j + 1] == [c];
    }
  }

  lemma {:induction false} NameRead(t: Text, p: nat, name: Text, j: nat, uri: bool, acc: Text)
    requires j <= |name| && PrintFrom(name, j, uri).Some? && Occurs(t, p, PrintFrom(name, j, uri).value)
    requires var q := p + |PrintFrom(name, j, uri).value|; q < |t| ==> t[q] == SLASH
    ensures NameFrom(t, p, uri, acc) == Name(p + |PrintFrom(name, j, uri).value|, acc + name[j..])
    decreases |name| - j
  {
    hide PrintAt, NextUnit;
    if j == |name| {
      assert acc + name[j..] == acc;
    } else {
      var r := PrintAt(name, j, uri);
      var rest := PrintFrom(name, j + r.taken, uri).value;
      OccursConcat(t, p, r.out, rest);
      UnitRead(t, p, name, j, uri);
      NameRead(t, p + |r.out|, name, j + r.taken, uri, acc + name[j..j + r.taken]);
      assert acc + name[j..j + r.taken] + name[j + r.taken..] == acc + name[j..];
    }
  }

  /** Tokens whose indices are those of their names, as `Parse` makes them. */
  predicate WellIndexed(tokens: seq<Token>) {
    forall k :: 0 <= k < |tokens| ==> tokens[k].index == IndexOf(tokens[k].name)
  }

  lemma {:induction false} TokensRead(t: Text, p: nat, tokens: seq<Token>, uri: bool)
    requires WellIndexed(tokens) && PrintTokens(tokens, uri).Some?
    requires Occurs(t, p, PrintTokens(tokens, uri).value) && p + |PrintTokens(tokens, uri).value| == |t|
    ensures p < |t| ==> t[p] == SLASH
    ensures TokensFrom(t, p, uri) == Tokens(tokens)
    decreases |tokens|
  {
    hide PrintFrom, NameFrom, IndexOf;
    if tokens != [] {
      var s := PrintFrom(tokens[0].name, 0, uri).value;
      var rest := PrintTokens(tokens[1..], uri).value;
      OccursConcat(t, p, [SLASH], s + rest);
      OccursConcat(t, p + 1, s, rest);
      OccursAt(t, p, [SLASH], 0);
      TokensRead(t, p + 1 + |s|, tokens[1..], uri);
      NameRead(t, p + 1, tokens[0].name, 0, uri, []);
      assert [] + tokens[0].name[0..] == tokens[0].name;
      assert tokens == [tokens[0]] + tokens[1..];
    }
  }

  /** Parsing either printed form of a pointer gives the pointer back. */
  lemma StringifyParse(tokens: seq<Token>, uri: bool)
    requires WellIndexed(tokens) && Stringify(tokens, uri).Some?
    ensures Parse(Stringify(tokens, uri).value) == Tokens(tokens)
  {
    hide TokensFrom, PrintTokens;
    var s := PrintTokens(tokens, uri).value;
    var t := Stringify(tokens, uri).value;
    PrintBegins(tokens, uri);
    if uri {
      assert t[1..|t|] == s;
      TokensRead(t, 1, tokens, true);
    } else {
      assert t[0..|t|] == s;
      TokensRead(t, 0, tokens, false);
    }
  }

  lemma PrintBegins(tokens: seq<Token>, uri: bool)
    requires PrintTokens(tokens, uri).Some?
    ensures var s := PrintTokens(tokens, uri).value; s == [] || s[0] == SLASH
  {
  }

  lemma {:induction false} TokensFromIndexed(t: Text, i: nat, uri: bool)
    requires i <= |t| && (i < |t| ==> t[i] == SLASH) && TokensFrom(t, i, uri).Tokens?
    ensures WellIndexed(TokensFrom(t, i, uri).tokens)
    decreases |t| - i
  {
    hide NameFrom, IndexOf;
    if i < |t| {
      var r := NameFrom(t, i + 1, uri, []);
      TokensFromIndexed(t, r.end, uri);
    }
  }

  /** Printing any parsed pointer, in either form that can show its names, and parsing
      it again gives an equal pointer. */
  lemma ParseStringifyParse(t: Text, uri: bool)
    requires Parse(t).Tokens? && Stringify(Parse(t).tokens, uri).Some?
    ensures Parse(Stringify(Parse(t).tokens, uri).value) == Parse(t)
  {
    var fragment := At(t, 0) == HASH;
    TokensFromIndexed(t, if fragment then 1 else 0, fragment);
    StringifyParse(Parse(t).tokens, uri);
  }

  // Names in URI fragments

  lemma {:induction false} OctetsSnoc(s: Text, c: Text)
    requires Utf8.IsUtf8Octets(s) && Utf8.IsUtf8Char(c)
    ensures Utf8.IsUtf8Octets(s + c)
    decreases |s|
  {
    hide Utf8.IsUtf8Char;
    if s == [] {
      assert (s + c)[..|c|] == c && (s + c)[|c|..] == [];
      assert Utf8.IsUtf8Octets([]);
    } else {
      var n :| 1 <= n <= |s| && Utf8.IsUtf8Char(s[..n]) && Utf8.IsUtf8Octets(s[n..]);
      OctetsSnoc(s[n..], c);
      assert (s + c)[..n] == s[..n] && (s + c)[n..] == s[n..] + c;
    }
  }

  lemma UnitIsChar(t: Text, i: nat)
    requires i < |t| && NextUnit(t, i, true).Unit?
    ensures Utf8.IsUtf8Char(NextUnit(t, i, true).out)
  {
    hide Utf8.Valid, Utf8.Taken, Utf8.IsUtf8Char;
    if t[i] == PERCENT {
      var s := PercentChar(t, i).value;
      PercentIsChar(t, i);
      if |s| == 1 {
        assert s == [s[0]];
        OneByteChar(s);
        OneByteChar([TILDE]);
        OneByteChar([SLASH]);
      }
    } else {
      OneByteChar([t[i]]);
      OneByteChar([TILDE]);
      OneByteChar([SLASH]);
    }
  }

  lemma OneByteChar(s: Text)
    requires |s| == 1
    ensures Utf8.IsUtf8Char(s) <==> s[0] <= 0x7F
    ensures !NeedPercentEncode(s[0]) ==> s[0] <= 0x7F
  {
  }

  lemma PercentIsChar(t: Text, i: nat)
    requires PercentChar(t, i).Some?
    ensures Utf8.IsUtf8Char(PercentChar(t, i).value)
  {
    hide Utf8.Valid, Utf8.Taken, Utf8.IsUtf8Char;
    var s := PercentChar(t, i).value;
    Utf8.ValidIsUtf8Char(s, 0);
    assert Triplets(t, i, 1 + (|s| - 1)).Some?;
    assert s[0] == Triplet(t, i).value;
    assert s[0..|s|] == s;
  }

  lemma {:induction false} FragmentName(t: Text, i: nat, name: Text)
    requires i <= |t| && Utf8.IsUtf8Octets(name) && NameFrom(t, i, true, name).Name?
    ensures Utf8.IsUtf8Octets(NameFrom(t, i, true, name).name)
    decreases |t| - i
  {
    hide NextUnit, Utf8.IsUtf8Octets;
    if i < |t| && t[i] != SLASH {
      UnitIsChar(t, i);
      var u := NextUnit(t, i, true);
      OctetsSnoc(name, u.out);
      FragmentName(t, u.next, name + u.out);
    }
  }

  lemma {:induction false} FragmentTokens(t: Text, i: nat)
    requires i <= |t| && (i < |t| ==> t[i] == SLASH) && TokensFrom(t, i, true).Tokens?
    ensures var tokens := TokensFrom(t, i, true).tokens;
            forall k :: 0 <= k < |tokens| ==> Utf8.IsUtf8Octets(tokens[k].name)
    decreases |t| - i
  {
    hide NameFrom, IndexOf, Utf8.IsUtf8Octets;
    if i < |t| {
      NoOctets();
      FragmentName(t, i + 1, []);
      FragmentTokens(t, NameFrom(t, i + 1, true, []).end);
    }
  }

  lemma NoOctets()
    ensures Utf8.IsUtf8Octets([])
  {
  }

  /** Whatever has been parsed from a fragment can be printed as a fragment. */
  lemma FragmentsPrint(t: Text)
    requires At(t, 0) == HASH && Parse(t).Tokens?
    ensures Stringify(Parse(t).tokens, true).Some?
  {
    hide TokensFrom, Stringify;
    FragmentTokens(t, 1);
    Printable(Parse(t).tokens, true);
  }
}
