/** The class `GenericPointer` (pointer.h): tokens that point into one name buffer. */
module PointerObject {
  import opened Bytes
  import opened Lexer
  import opened Pointers
  import Printing
  import Utf8

  /** A name in the buffer, by its place; a NUL follows it. */
  datatype RawToken = RawToken(name: nat, length: nat, index: nat)

  function Slashes(t: Text, i: nat): nat
    requires i <= |t|
    decreases |t| - i
  {
    if i == |t| then 0 else (if t[i] == SLASH then 1 else 0) + Slashes(t, i + 1)
  }

  /** No separator is skipped within a name. */
  lemma {:induction false} SlashesKept(t: Text, i: nat, uri: bool, name: Text)
    requires i <= |t| && NameFrom(t, i, uri, name).Name?
    ensures Slashes(t, i) == Slashes(t, NameFrom(t, i, uri, name).end)
    decreases |t| - i
  {
    hide NextUnit;
    if i < |t| && t[i] != SLASH {
      var u := NextUnit(t, i, uri);
      UnitNoSlash(t, i, uri);
      SlashesSkipped(t, i, u.next);
      SlashesKept(t, u.next, uri, name + u.out);
    }
  }

  lemma {:induction false} SlashesSkipped(t: Text, i: nat, j: nat)
    requires i <= j <= |t| && forall k :: i <= k < j ==> t[k] != SLASH
    ensures Slashes(t, i) == Slashes(t, j)
    decreases j - i
  {
    if i < j { SlashesSkipped(t, i + 1, j); }
  }

  lemma UnitNoSlash(t: Text, i: nat, uri: bool)
    requires i < |t| && t[i] != SLASH && NextUnit(t, i, uri).Unit?
    ensures forall k :: i <= k < NextUnit(t, i, uri).next ==> t[k] != SLASH
  {
    hide Utf8.Valid, Utf8.Taken;
    if uri && t[i] == PERCENT {
      match Triplet(t, i)
      case Some(lead) => TripletsNoSlash(t, i, Utf8.Taken(lead));
    }
  }

  lemma {:induction false} TripletsNoSlash(t: Text, p: nat, n: nat)
    requires p <= |t| && Triplets(t, p, n).Some?
    ensures p + 3 * n <= |t| && forall k :: p <= k < p + 3 * n ==> t[k] != SLASH
    decreases n
  {
    if n > 0 {
      TripletsNoSlash(t, p + 3, n - 1);
      assert HexValue(SLASH).None?;
    }
  }

  /** As many tokens as separators. */
  lemma {:induction false} TokenCount(t: Text, i: nat, uri: bool)
    requires i <= |t| && (i < |t| ==> t[i] == SLASH) && TokensFrom(t, i, uri).Tokens?
    ensures |TokensFrom(t, i, uri).tokens| == Slashes(t, i)
    decreases |t| - i
  {
    hide NameFrom, IndexOf;
    if i < |t| {
      var end := NameFrom(t, i + 1, uri, []).end;
      SlashesKept(t, i + 1, uri, []);
      TokenCount(t, end, uri);
    }
  }

  lemma {:induction false} TripletsSnoc(t: Text, p: nat, n: nat)
    ensures Triplets(t, p, n + 1) ==
            match (Triplets(t, p, n), Triplet(t, p + 3 * n))
            case (Some(s), Some(b)) => Some(s + [b])
            case _ => None
    decreases n
  {
    hide Triplet;
    if n == 0 {
      assert p + 3 * n == p && Triplets(t, p, 0) == Some([]) && Triplets(t, p + 3, 0) == Some([]);
      if Triplet(t, p).Some? {
        var b := Triplet(t, p).value;
        assert [b] + [] == [b] && [] + [b] == [b];
      }
    } else {
      TripletsSnoc(t, p + 3, n - 1);
      assert p + 3 + 3 * (n - 1) == p + 3 * n;
      match (Triplet(t, p), Triplets(t, p + 3, n - 1), Triplet(t, p + 3 * n))
      case (Some(a), Some(s), Some(b)) => assert [a] + (s + [b]) == [a] + s + [b];
      case _ =>
    }
  }

  /** What `Validate` makes of the decoded triplets. */
  lemma PercentCharIs(t: Text, p: nat, lead: Byte)
    requires Triplet(t, p) == Some(lead)
    ensures var r := Triplets(t, p, Utf8.Taken(lead));
            && (r.Some? ==> |r.value| > 0 && r.value[0] == lead)
            && PercentChar(t, p) == (if r.Some? && Utf8.Valid(r.value, 0) then r else None)
  {
    assert Triplets(t, p, 1 + (Utf8.Taken(lead) - 1)) == Triplets(t, p, Utf8.Taken(lead));
  }

  lemma NoTriplet(t: Text, p: nat)
    requires Triplet(t, p).None?
    ensures PercentChar(t, p).None?
  {
  }

  lemma FirstTriplet(t: Text, p: nat)
    ensures Triplets(t, p, 0) == Some([])
    ensures Triplet(t, p).Some? ==> p + 3 <= |t| && Triplets(t, p, 1) == Some([Triplet(t, p).value])
  {
    TripletsSnoc(t, p, 0);
    if Triplet(t, p).Some? {
      assert [] + [Triplet(t, p).value] == [Triplet(t, p).value];
    }
  }

  lemma BadLead(t: Text, p: nat, lead: Byte)
    requires Triplet(t, p) == Some(lead) && lead >= 0x80 && Utf8.Masks(lead).None?
    ensures PercentChar(t, p).None?
  {
    PercentCharIs(t, p, lead);
    var r := Triplets(t, p, Utf8.Taken(lead));
    if r.Some? { Utf8.ValidByMasks(r.value, 0); }
  }

  lemma TailCount(lead: Byte)
    ensures lead < 0x80 ==> Utf8.Taken(lead) == 1
    ensures lead >= 0x80 && Utf8.Masks(lead).Some? ==>
              1 <= |Utf8.Masks(lead).value| <= 3 && Utf8.Taken(lead) == 1 + |Utf8.Masks(lead).value|
  {
  }

  /** `PercentDecodeStream`: the byte of the triplet at `src`, or 0 and not valid. */
  method TakeTriplet(source: Text, src: nat) returns (c: Byte, next: nat, valid: bool)
    requires src <= |source|
    ensures valid == Triplet(source, src).Some? && next <= |source|
    ensures valid ==> c == Triplet(source, src).value && next == src + 3
    ensures !valid ==> c == 0
  {
    c, next, valid := 0, src, true;
    if At(source, next) != PERCENT || next + 3 > |source| {
      return 0, next, false;
    }
    next := next + 1;
    for j := 0 to 2
      invariant next == src + 1 + j <= src + 3 <= |source| && c < (if j == 0 then 1 else if j == 1 then 16 else 256)
      invariant j >= 1 ==> HexValue(source[src + 1]) == Some(if j == 1 then c else c / 16)
      invariant j == 2 ==> HexValue(source[src + 2]) == Some(c % 16)
    {
      var h := HexValue(source[next]);
      if h.None? {
        return 0, next, false;
      }
      c := c * 16 + h.value;
      next := next + 1;
    }
  }

  /** `Validate` from a stream of triplets into the buffer. */
  method DecodePercent(source: Text, i: nat, buf: array<Byte>, name: nat) returns (ok: bool, len: nat)
    requires i < |source| <= buf.Length && source[i] == PERCENT && name + 2 <= i
    modifies buf
    ensures ok == PercentChar(source, i).Some?
    ensures ok ==> name + len <= buf.Length && buf[name..name + len] == PercentChar(source, i).value
    ensures forall j :: 0 <= j < name ==> buf[j] == old(buf[j])
  {
    hide Triplet, Triplets, PercentChar, Utf8.Valid, Utf8.Taken, Utf8.Masks, Utf8.Trans;
    var lead, src, valid := TakeTriplet(source, i);
    buf[name] := lead;
    len := 1;
    ok := true;
    if !valid {
      NoTriplet(source, i);
      return false, len;
    }
    PercentCharIs(source, i, lead);
    FirstTriplet(source, i);
    TailCount(lead);
    if lead >= 0x80 {
      var masks := Utf8.Masks(lead);
      if masks.None? {
        BadLead(source, i, lead);
        return false, len;
      }
      var m := masks.value;
      for k := 0 to |m|
        invariant len == 1 + k && 0 <= src <= |source| && valid == Triplets(source, i, 1 + k).Some?
        invariant valid ==> src == i + 3 * (1 + k) && buf[name..name + len] == Triplets(source, i, 1 + k).value
        invariant valid ==>
                    (ok <==> forall j :: 0 <= j < k ==> Utf8.Trans(Triplets(source, i, 1 + k).value[1 + j], m[j]))
        invariant forall j :: 0 <= j < name ==> buf[j] == old(buf[j])
      {
        TripletsSnoc(source, i, 1 + k);
        var c, next, good := TakeTriplet(source, src);
        buf[name + len] := c;
        len := len + 1;
        src := next;
        valid := valid && good;
        ok := ok && Utf8.Trans(c, m[k]);
      }
      if valid { Utf8.ValidByMasks(Triplets(source, i, 1 + |m|).value, 0); }
      ok := ok && valid;
    } else {
      Utf8.ValidByMasks([lead], 0);
    }
  }

  lemma LongNotDigits(t: Text, i: nat)
    requires PercentChar(t, i).Some? && |PercentChar(t, i).value| > 1
    ensures !AllDigits(PercentChar(t, i).value)
  {
    var s := PercentChar(t, i).value;
    PercentIsChar(t, i);
    assert s[0] >= 0x80;
  }

  /** One turn of the inner loop of `Parse`: `digits` says whether it added digits. */
  method ParseUnit(source: Text, i: nat, uri: bool, buf: array<Byte>, name: nat)
      returns (error: Option<PointerError>, next: nat, end: nat, digits: bool)
    requires i < |source| <= buf.Length && name + (if uri then 2 else 1) <= i
    modifies buf
    ensures forall j :: 0 <= j < name ==> buf[j] == old(buf[j])
    ensures match NextUnit(source, i, uri)
            case BadUnit(code, offset) => error == Some(code) && next == offset
            case Unit(n, out) =>
              && error.None? && next == n && end == name + |out| && end <= buf.Length && buf[name..end] == out
              && digits == AllDigits(out)
  {
    hide PercentChar, AllDigits, NeedPercentEncode;
    error, next, end, digits := None, i, name, false;
    var c := source[i];
    if uri {
      if c == PERCENT {
        var ok, len := DecodePercent(source, i, buf, name);
        if !ok { return Some(InvalidPercentEncoding), i, name, false; }
        next := i + 3 * len - 1;
        ghost var value := PercentChar(source, i).value;
        assert |value| == len;
        if len == 1 {
          c := buf[name];
          assert value[0] == buf[name..name + len][0] == c;
        } else {
          LongNotDigits(source, i);
          return None, next + 1, name + len, false;
        }
      } else if NeedPercentEncode(c) {
        return Some(CharacterMustPercentEncode), i, name, false;
      }
    }
    next := next + 1;
    if c == TILDE {
      if next >= |source| { return Some(InvalidEscape), next, name, false; }
      c := source[next];
      if c == ZERO {
        c := TILDE;
      } else if c == ONE {
        c := SLASH;
      } else {
        return Some(InvalidEscape), next, name, false;
      }
      next := next + 1;
    }
    buf[name] := c;
    end := name + 1;
    digits := IsDigit(c);
    OneIsDigit(c);
    assert buf[name..end] == [c];
  }

  lemma OneIsDigit(c: Byte)
    ensures AllDigits([c]) <==> IsDigit(c)
  {
    assert [c][0] == c;
  }

  /** The inner loop of `Parse`. */
  method ParseName(source: Text, start: nat, uri: bool, buf: array<Byte>, name: nat)
      returns (error: Option<PointerError>, i: nat, end: nat, isNumber: bool)
    requires start <= |source| <= buf.Length && name + (if uri then 2 else 1) <= start
    modifies buf
    ensures forall j :: 0 <= j < name ==> buf[j] == old(buf[j])
    ensures match NameFrom(source, start, uri, [])
            case BadName(code, offset) => error == Some(code) && i == offset
            case Name(e, s) =>
              && error.None? && i == e && end == name + |s| && end + (if uri then 2 else 1) <= i
              && end < buf.Length && buf[name..end] == s && isNumber == AllDigits(s)
  {
    hide NextUnit, AllDigits;
    NoDigits();
    error, i, end, isNumber := None, start, name, true;
    ghost var s: Text := [];
    while i < |source| && source[i] != SLASH
      invariant start <= i <= |source| && end == name + |s| && end + (if uri then 2 else 1) <= i && error.None?
      invariant buf[..][name..end] == s && isNumber == AllDigits(s)
      invariant NameFrom(source, start, uri, []) == NameFrom(source, i, uri, s)
      invariant forall j :: 0 <= j < name ==> buf[j] == old(buf[j])
    {
      ghost var out, before := NextUnit(source, i, uri), buf[..];
      var next, e, digits;
      error, next, e, digits := ParseUnit(source, i, uri, buf, end);
      if error.Some? { return error, next, end, false; }
      DigitsJoin(s, out.out);
      SliceJoin(before, buf[..], name, end, e, s, out.out);
      i, end, isNumber := next, e, isNumber && digits;
      s := s + out.out;
    }
  }

  lemma SliceJoin(before: seq<Byte>, after: seq<Byte>, a: nat, b: nat, c: nat, s: Text, out: Text)
    requires a <= b <= c <= |after| == |before| && before[a..b] == s && after[b..c] == out
    requires forall j :: 0 <= j < b ==> after[j] == before[j]
    ensures after[a..c] == s + out
  {
    assert after[a..b] == before[a..b];
    assert after[a..c] == after[a..b] + after[b..c];
  }

  lemma NoDigits()
    ensures AllDigits([])
  {
  }

  lemma DigitsJoin(a: Text, b: Text)
    ensures AllDigits(a + b) <==> AllDigits(a) && AllDigits(b)
  {
    if AllDigits(a + b) {
      assert forall i :: 0 <= i < |a| ==> a[i] == (a + b)[i];
      assert forall i :: 0 <= i < |b| ==> b[i] == (a + b)[|a| + i];
    }
  }

  /** The string to `SizeType` conversion. */
  method ToIndex(buf: array<Byte>, name: nat, length: nat, digits: bool) returns (index: nat)
    requires name + length <= buf.Length && digits == AllDigits(buf[name..name + length])
    ensures index == IndexOf(buf[name..name + length])
  {
    hide AllDigits;
    ghost var s := buf[name..name + length];
    var isNumber := digits;
    if length == 0 { isNumber := false; }
    if isNumber && length > 1 && buf[name] == ZERO { isNumber := false; }
    assert isNumber <==> IsIndexName(s) by { assert length > 0 ==> s[0] == buf[name]; }
    var n := 0;
    if isNumber {
      for j := 0 to length
        invariant 0 <= n < TWO32 && IndexFrom(s, 0, 0) == IndexFrom(s, j, n)
      {
        DigitAt(s, j);
        assert s[j] == buf[name + j];
        var m := (n * 10 + (buf[name + j] - 0x30)) % TWO32;
        if m < n { return INVALID_INDEX; }
        n := m;
      }
    }
    index := if isNumber then n else INVALID_INDEX;
  }

  lemma DigitAt(s: Text, j: nat)
    requires AllDigits(s) && j < |s|
    ensures IsDigit(s[j])
  {
  }

  /** Tokens one behind the other in the buffer, a NUL behind each, up to `end`. */
  ghost predicate Laid(raw: seq<RawToken>, buf: seq<Byte>, tokens: seq<Token>, end: nat) {
    && |raw| == |tokens| && end <= |buf|
    && (raw != [] ==> raw[0].name == 0)
    && (forall k :: 1 <= k < |raw| ==> raw[k].name == raw[k - 1].name + raw[k - 1].length + 1)
    && end == (if raw == [] then 0 else raw[|raw| - 1].name + raw[|raw| - 1].length + 1)
    && forall k :: 0 <= k < |raw| ==> Stands(raw[k], buf, tokens[k], end)
  }

  ghost predicate Stands(r: RawToken, buf: seq<Byte>, token: Token, end: nat) {
    && r.name + r.length < end <= |buf| && buf[r.name..r.name + r.length] == token.name
    && buf[r.name + r.length] == 0 && r.index == token.index
  }

  lemma LaidInside(raw: seq<RawToken>, buf: seq<Byte>, tokens: seq<Token>, end: nat)
    requires Laid(raw, buf, tokens, end)
    ensures end <= |buf|
  {
  }

  lemma LaidSnoc(raw: seq<RawToken>, buf: seq<Byte>, tokens: seq<Token>, end: nat,
                 buf2: seq<Byte>, r: RawToken, token: Token)
    requires Laid(raw, buf, tokens, end) && |buf2| >= end && buf2[..end] == buf[..end]
    requires r.name == end && Stands(r, buf2, token, end + r.length + 1)
    ensures Laid(raw + [r], buf2, tokens + [token], end + r.length + 1)
  {
    hide Stands;
    StandsInside(r, buf2, token, end + r.length + 1);
    forall k | 0 <= k < |raw| ensures Stands(raw[k], buf2, tokens[k], end + r.length + 1) {
      StandsKept(raw[k], buf, tokens[k], end, buf2, end + r.length + 1);
    }
    var raw2, tokens2 := raw + [r], tokens + [token];
    assert forall k :: 0 <= k < |raw2| ==>
        if k < |raw| then raw2[k] == raw[k] && tokens2[k] == tokens[k] else raw2[k] == r && tokens2[k] == token;
  }

  lemma StandsInside(r: RawToken, buf: seq<Byte>, token: Token, end: nat)
    requires Stands(r, buf, token, end)
    ensures end <= |buf|
  {
  }

  lemma StandsKept(r: RawToken, buf: seq<Byte>, token: Token, end: nat, buf2: seq<Byte>, end2: nat)
    requires Stands(r, buf, token, end) && end <= end2 <= |buf2| && buf2[..end] == buf[..end]
    ensures Stands(r, buf2, token, end2)
  {
    var a, b := r.name, r.name + r.length;
    assert buf2[a..b] == buf2[..end][a..b] && buf[a..b] == buf[..end][a..b];
    assert buf2[..end][b] == buf[..end][b];
  }

  // Printing from the buffer

  /** The name and its NUL stand in the buffer at `p`. */
  ghost predicate Spelled(buf: seq<Byte>, p: nat, name: Text) {
    p + |name| < |buf| && forall i :: p <= i <= p + |name| ==> buf[i] == At(name, i - p)
  }

  lemma SpelledAt(buf: seq<Byte>, p: nat, name: Text, i: nat)
    requires Spelled(buf, p, name) && i <= |name|
    ensures p + i < |buf| && buf[p + i] == At(name, i)
  {
  }

  /** `PercentEncodeStream::Put`. */
  method PutEncoded(os: Text, c: Byte) returns (out: Text)
    ensures out == os + PercentEncoded([c])
  {
    assert [c][1..] == [] && PercentEncoded([]) == [];
    out := os + [PERCENT];
    out := out + [Printing.HexDigit(c / 16)];
    out := out + [Printing.HexDigit(c % 16)];
  }

  lemma {:induction false} EncodedSnoc(s: Text, c: Byte)
    ensures PercentEncoded(s + [c]) == PercentEncoded(s) + PercentEncoded([c])
    decreases |s|
  {
    if s == [] {
      assert [] + [c] == [c];
    } else {
      EncodedSnoc(s[1..], c);
      assert (s + [c])[1..] == s[1..] + [c];
    }
  }

  /** `Validate` from the buffer to a stream that percent-encodes. It goes on after a
      test has failed, and so may lead behind the names, which end at `end`. */
  method EncodePercent(buf: array<Byte>, p: nat, j: nat, os: Text, ghost name: Text, ghost end: nat)
      returns (ok: bool, taken: nat, out: Text, ghost overrun: bool)
    requires Spelled(buf[..], p, name) && j < |name| && p + |name| < end
    requires p + j + Utf8.Taken(name[j]) <= buf.Length
    ensures ok == Utf8.Valid(name, j) && taken == Utf8.Taken(name[j])
    ensures ok ==> j + taken <= |name| && out == os + PercentEncoded(name[j..j + taken])
    ensures overrun == (p + j + taken > end)
  {
    hide Spelled, PercentEncoded, Utf8.Valid, Utf8.Masks, Utf8.Taken, Utf8.Trans, Utf8.IsUtf8Char;
    Utf8.ValidByMasks(name, j);
    SpelledAt(buf[..], p, name, j);
    var lead := buf[p + j];
    out := PutEncoded(os, lead);
    taken, overrun := 1, false;
    assert name[j..j + 1] == [lead];
    var masks := Utf8.Masks(lead);
    ok := lead < 0x80 || masks.Some?;
    if lead >= 0x80 && masks.Some? {
      var m := masks.value;
      for k := 0 to |m|
        invariant taken == 1 + k && overrun == (p + j + taken > end)
        invariant ok == forall i :: 0 <= i < k ==> Utf8.Trans(At(name, j + 1 + i), m[i])
        invariant if j + taken <= |name| then out == os + PercentEncoded(name[j..j + taken]) else !ok
      {
        if j + taken <= |name| { SpelledAt(buf[..], p, name, j + taken); }
        Utf8.NulNoTail(m[k]);
        var c := buf[p + j + taken];
        if j + taken < |name| {
          EncodedSnoc(name[j..j + taken], c);
          assert name[j..j + taken] + [c] == name[j..j + taken + 1];
        }
        overrun := overrun || p + j + taken >= end;
        out := PutEncoded(out, c);
        ok := ok && Utf8.Trans(c, m[k]);
        taken := taken + 1;
      }
    }
  }

  /** What `Stringify` puts for the character of a name at `j`. */
  method PrintChar(buf: array<Byte>, p: nat, j: nat, uri: bool, os: Text, ghost name: Text, ghost end: nat)
      returns (ok: bool, taken: nat, out: Text, ghost overrun: bool)
    requires Spelled(buf[..], p, name) && j < |name| && p + |name| < end <= buf.Length
    requires PrintAt(name, j, uri).Unprintable? ==> p + j + Utf8.Taken(name[j]) <= buf.Length
    ensures match PrintAt(name, j, uri)
            case Print(n, s) => ok && taken == n && out == os + s && !overrun
            case Unprintable => !ok && overrun == (p + j + Utf8.Taken(name[j]) > end)
  {
    hide Spelled, PercentEncoded, NeedPercentEncode, Utf8.Valid, Utf8.Taken, Utf8.IsUtf8Char;
    SpelledAt(buf[..], p, name, j);
    ok, taken, out, overrun := true, 1, os, false;
    var c := buf[p + j];
    if c == TILDE {
      out := out + [TILDE];
      out := out + [ZERO];
    } else if c == SLASH {
      out := out + [TILDE];
      out := out + [ONE];
    } else if uri && NeedPercentEncode(c) {
      Utf8.ValidIsUtf8Char(name, j);
      ok, taken, out, overrun := EncodePercent(buf, p, j, os, name, end);
    } else {
      out := out + [c];
    }
  }

  lemma PrintStep(name: Text, j: nat, uri: bool, done: Text)
    requires j < |name|
    ensures var c := PrintAt(name, j, uri);
            Behind(done, PrintFrom(name, j, uri)) ==
            if c.Unprintable? then None else Behind(done + c.out, PrintFrom(name, j + c.taken, uri))
    ensures var c := PrintAt(name, j, true);
            NameReach(name, j) == if c.Unprintable? then j + Utf8.Taken(name[j]) else NameReach(name, j + c.taken)
  {
    hide PrintAt, Utf8.Taken;
    match PrintAt(name, j, uri)
    case Print(n, out) =>
      var rest := PrintFrom(name, j + n, uri);
      if rest.Some? { assert done + (out + rest.value) == done + out + rest.value; }
    case _ =>
  }

  /** What is printed behind `done`, when printing succeeds. */
  function Behind(done: Text, rest: Option<Text>): Option<Text> {
    match rest case None => None case Some(s) => Some(done + s)
  }

  /** The inner loop of `Stringify`. */
  method PrintName(buf: array<Byte>, p: nat, length: nat, uri: bool, os: Text, ghost name: Text, ghost end: nat)
      returns (ok: bool, out: Text, ghost overrun: bool)
    requires Spelled(buf[..], p, name) && length == |name| && p + |name| < end <= buf.Length
    requires uri && PrintFrom(name, 0, true).None? ==> p + NameReach(name, 0) <= buf.Length
    ensures match PrintFrom(name, 0, uri)
            case Some(s) => ok && out == os + s && !overrun
            case None => !ok && uri && overrun == (p + NameReach(name, 0) > end)
  {
    hide Spelled, PrintAt, PrintFrom, NameReach, Utf8.Taken;
    if !uri { PlainPrints(name, 0); }
    ok, out, overrun := true, os, false;
    var j := 0;
    PrintEnd(name, uri, os);
    while j < length
      invariant 0 <= j <= |name| && ok && !overrun
      invariant Behind(os, PrintFrom(name, 0, uri)) == Behind(out, PrintFrom(name, j, uri))
      invariant uri ==> NameReach(name, 0) == NameReach(name, j)
      decreases |name| - j
    {
      PrintStep(name, j, uri, out);
      ghost var c := PrintAt(name, j, uri);
      var taken;
      ok, taken, out, overrun := PrintChar(buf, p, j, uri, out, name, end);
      if !ok { return; }
      j := j + taken;
    }
    PrintEnd(name, uri, out);
  }

  lemma PrintEnd(name: Text, uri: bool, out: Text)
    ensures Behind(out, PrintFrom(name, |name|, uri)) == Some(out)
  {
    assert out + [] == out;
  }

  class GenericPointer {
    var tokens: array<RawToken>
    var tokenCount: nat
    var nameBuffer: array<Byte>
    /** The used part of the name buffer. */
    var nameEnd: nat
    var parseErrorCode: Option<PointerError>
    var parseErrorOffset: nat

    /** The pointer holds exactly these tokens. */
    ghost predicate Holds(ts: seq<Token>)
      reads this, tokens, nameBuffer
    {
      tokenCount <= tokens.Length && Laid(tokens[..tokenCount], nameBuffer[..], ts, nameEnd)
    }

    /** The constructor that parses. */
    constructor (source: Text)
      ensures fresh(tokens) && fresh(nameBuffer)
      ensures match Pointers.Parse(source)
              case BadPointer(code, offset) =>
                parseErrorCode == Some(code) && parseErrorOffset == offset && tokenCount == 0
              case Tokens(ts) =>
                && parseErrorCode.None? && Holds(ts) && tokenCount == tokens.Length == |ts|
                && nameBuffer.Length == |source| && nameEnd <= |source|
    {
      tokens, nameBuffer := new RawToken[0], new Byte[0];
      tokenCount, nameEnd, parseErrorCode, parseErrorOffset := 0, 0, None, 0;
      new;
      Parse(source);
    }

    /** Every separator gets a token; the name cursor stays within the buffer, which is
        as long as the source. */
    method Parse(source: Text)
      modifies this
      ensures fresh(tokens) && fresh(nameBuffer)
      ensures match Pointers.Parse(source)
              case BadPointer(code, offset) =>
                parseErrorCode == Some(code) && parseErrorOffset == offset && tokenCount == 0
              case Tokens(ts) =>
                && parseErrorCode.None? && Holds(ts) && tokenCount == tokens.Length == |ts|
                && nameBuffer.Length == |source| && nameEnd <= |source|
    {
      hide NameFrom, IndexOf, Laid, Slashes, TokensFrom, Prepend;
      tokenCount := CountSlashes(source);
      tokens, nameBuffer := new RawToken[tokenCount], new Byte[|source|];
      nameEnd := 0;
      var uri := At(source, 0) == HASH;
      var i := if uri then 1 else 0;
      if i != |source| && source[i] != SLASH {
        Fail(TokenMustBeginWithSolidus, i);
        return;
      }
      ghost var done: seq<Token> := [];
      var k := 0;
      NothingLaid(nameBuffer[..]);
      HeadNoSlash(source);
      PrependNone(TokensFrom(source, i, uri));
      while i < |source|
        invariant fresh(tokens) && fresh(nameBuffer) && tokens.Length == tokenCount && nameBuffer.Length == |source|
        invariant i <= |source| && (i < |source| ==> source[i] == SLASH)
        invariant 0 <= k == |done| && tokenCount == k + Slashes(source, i)
        invariant nameEnd + (if uri then 1 else 0) <= i
        invariant Laid(tokens[..k], nameBuffer[..], done, nameEnd)
        invariant Pointers.Parse(source) == Prepend(done, TokensFrom(source, i, uri))
        decreases |source| - i
      {
        ghost var name := NameFrom(source, i + 1, uri, []);
        TokenStep(source, i, uri, done);
        var ok, next := ParseToken(source, i, uri, k, done);
        if !ok { return; }
        ghost var token := Token(name.name, IndexOf(name.name));
        done := done + [token];
        i, k := next, k + 1;
      }
      NoMoreTokens(source, uri, done);
      assert tokens[..k] == tokens[..tokenCount];
      parseErrorCode := None;
    }

    /** The body of the outer loop of `Parse`: the token whose separator stands at `i`. */
    method ParseToken(source: Text, i: nat, uri: bool, k: nat, ghost done: seq<Token>) returns (ok: bool, next: nat)
      requires i < |source| == nameBuffer.Length && k < tokenCount == tokens.Length
      requires nameEnd + (if uri then 1 else 0) <= i && Laid(tokens[..k], nameBuffer[..], done, nameEnd)
      modifies this, tokens, nameBuffer
      ensures ok ==> tokens == old(tokens) && nameBuffer == old(nameBuffer) && tokenCount == old(tokenCount)
      ensures !ok ==> fresh(tokens) && fresh(nameBuffer)
      ensures match NameFrom(source, i + 1, uri, [])
              case BadName(code, offset) =>
                !ok && parseErrorCode == Some(code) && parseErrorOffset == offset && tokenCount == 0
              case Name(end, name) =>
                && ok && next == end && nameEnd + (if uri then 1 else 0) <= end
                && Laid(tokens[..k + 1], nameBuffer[..], done + [Token(name, IndexOf(name))], nameEnd)
    {
      hide NameFrom, IndexOf, Laid, AllDigits;
      ghost var before := nameBuffer[..];
      LaidInside(tokens[..k], before, done, nameEnd);
      ghost var name := NameFrom(source, i + 1, uri, []);
      var error, e, end, digits := ParseName(source, i + 1, uri, nameBuffer, nameEnd);
      if error.Some? {
        Fail(error.value, e);
        return false, e;
      }
      ok, next := true, e;
      assert nameBuffer[nameEnd..end] == name.name;
      var index := ToIndex(nameBuffer, nameEnd, end - nameEnd, digits);
      nameBuffer[end] := 0;
      var raw := RawToken(nameEnd, end - nameEnd, index);
      tokens[k] := raw;
      assert nameBuffer[..][nameEnd..end] == name.name;
      assert nameBuffer[..][..nameEnd] == before[..nameEnd];
      assert tokens[..k + 1] == old(tokens[..k]) + [raw];
      LaidSnoc(old(tokens[..k]), before, done, nameEnd, nameBuffer[..], raw, Token(name.name, IndexOf(name.name)));
      nameEnd := end + 1;
    }

    /** `Append`: a copy of a parsed pointer with one more token. */
    constructor Append(rhs: GenericPointer, token: Token, ghost ts: seq<Token>)
      requires rhs.Holds(ts)
      ensures fresh(tokens) && fresh(nameBuffer) && parseErrorCode.None? && Holds(ts + [token])
    {
      tokens, nameBuffer := new RawToken[0], new Byte[0];
      tokenCount, nameEnd, parseErrorCode, parseErrorOffset := 0, 0, None, 0;
      new;
      hide Stands, Laid;
      var p := CopyFromRaw(rhs, 1, |token.name| + 1, ts);
      AddToken(p, token, ts);
    }

    /** Put one more token behind those that have been copied. */
    method AddToken(p: nat, token: Token, ghost ts: seq<Token>)
      requires tokens.Length == tokenCount > 0 && nameBuffer.Length == p + |token.name| + 1
      requires Laid(tokens[..tokenCount - 1], nameBuffer[..], ts, p)
      modifies this`nameEnd, tokens, nameBuffer
      ensures Holds(ts + [token])
    {
      hide Stands, Laid;
      ghost var raws, before := tokens[..tokenCount - 1], nameBuffer[..];
      PutName(p, token.name);
      var raw := RawToken(p, |token.name|, token.index);
      tokens[tokenCount - 1] := raw;
      nameEnd := p + |token.name| + 1;
      assert tokens[..tokenCount] == raws + [raw];
      NewStands(raw, nameBuffer[..], token, nameEnd);
      LaidSnoc(raws, before, ts, p, nameBuffer[..], raw, token);
    }

    /** Copy a name and its NUL to the end of the name buffer. */
    method PutName(p: nat, name: Text)
      requires nameBuffer.Length == p + |name| + 1
      modifies nameBuffer
      ensures nameBuffer[..][..p] == old(nameBuffer[..][..p])
      ensures nameBuffer[..][p..p + |name|] == name && nameBuffer[p + |name|] == 0
    {
      for i := 0 to |name|
        invariant forall j :: 0 <= j < p ==> nameBuffer[j] == old(nameBuffer[j])
        invariant forall j :: 0 <= j < i ==> nameBuffer[p + j] == name[j]
      {
        nameBuffer[p + i] := name[i];
      }
      nameBuffer[p + |name|] := 0;
    }

    /** `CopyFromRaw`: gives the start of the free part of the name buffer. */
    method CopyFromRaw(rhs: GenericPointer, extraToken: nat, extraNameBufferSize: nat, ghost ts: seq<Token>)
        returns (free: nat)
      requires rhs.Holds(ts) && rhs != this && parseErrorCode.None?
      modifies this
      ensures fresh(tokens) && fresh(nameBuffer) && parseErrorCode.None?
      ensures tokenCount == tokens.Length == rhs.tokenCount + extraToken
      ensures free == rhs.nameEnd && nameBuffer.Length == free + extraNameBufferSize
      ensures tokens[..rhs.tokenCount] == rhs.tokens[..rhs.tokenCount]
      ensures Laid(rhs.tokens[..rhs.tokenCount], nameBuffer[..], ts, free)
    {
      hide Laid;
      ghost var raws, names := rhs.tokens[..rhs.tokenCount], rhs.nameBuffer[..];
      var nameBufferSize := rhs.NameBufferSize(ts);
      LaidEnd(raws, names, ts, rhs.nameEnd);
      tokenCount := rhs.tokenCount + extraToken;
      tokens := new RawToken[tokenCount];
      nameBuffer := new Byte[nameBufferSize + extraNameBufferSize];
      forall t | 0 <= t < rhs.tokenCount { tokens[t] := rhs.tokens[t]; }
      forall j | 0 <= j < nameBufferSize { nameBuffer[j] := rhs.nameBuffer[j]; }
      assert nameBuffer[..][..nameBufferSize] == names[..nameBufferSize];
      LaidKept(raws, names, ts, rhs.nameEnd, nameBuffer[..]);
      assert rhs.tokens[..rhs.tokenCount] == raws;
      free := nameBufferSize;
    }

    /** The lengths of all names, with a NUL for each: the used part of the buffer. */
    method NameBufferSize(ghost ts: seq<Token>) returns (size: nat)
      requires Holds(ts)
      ensures size == nameEnd
    {
      hide Stands;
      ghost var raws := tokens[..tokenCount];
      size := tokenCount;
      for t := 0 to tokenCount
        invariant size == tokenCount - t + (if t == 0 then 0 else raws[t - 1].name + raws[t - 1].length + 1)
      {
        LaidNext(raws, nameBuffer[..], ts, nameEnd, t);
        assert raws[t] == tokens[t];
        size := size + tokens[t].length;
      }
      LaidEnd(raws, nameBuffer[..], ts, nameEnd);
    }

    /** `operator==`: false if either pointer is invalid. */
    method Equals(rhs: GenericPointer, ghost ts: seq<Token>, ghost us: seq<Token>) returns (equal: bool)
      requires parseErrorCode.None? ==> Holds(ts)
      requires rhs.parseErrorCode.None? ==> rhs.Holds(us)
      ensures equal <==> parseErrorCode.None? && rhs.parseErrorCode.None? && ts == us
    {
      hide Stands, Laid;
      if parseErrorCode.Some? || rhs.parseErrorCode.Some? { return false; }
      LaidCount(tokens[..tokenCount], nameBuffer[..], ts, nameEnd);
      LaidCount(rhs.tokens[..rhs.tokenCount], rhs.nameBuffer[..], us, rhs.nameEnd);
      if tokenCount != rhs.tokenCount { return false; }
      for i := 0 to tokenCount
        invariant forall k :: 0 <= k < i ==> ts[k] == us[k]
      {
        var same := SameToken(rhs, i, ts, us);
        if !same {
          TokensDiffer(ts, us, i);
          return false;
        }
      }
      equal := true;
    }

    /** The comparison of one pair of tokens. */
    method SameToken(rhs: GenericPointer, i: nat, ghost ts: seq<Token>, ghost us: seq<Token>) returns (same: bool)
      requires Holds(ts) && rhs.Holds(us) && i < tokenCount && i < rhs.tokenCount && i < |ts| && i < |us|
      ensures same == (ts[i] == us[i])
    {
      assert Stands(tokens[..tokenCount][i], nameBuffer[..], ts[i], nameEnd);
      assert Stands(rhs.tokens[..rhs.tokenCount][i], rhs.nameBuffer[..], us[i], rhs.nameEnd);
      var a, b := tokens[i], rhs.tokens[i];
      same := a.index == b.index && a.length == b.length
              && nameBuffer[a.name..a.name + a.length] == rhs.nameBuffer[b.name..b.name + b.length];
    }

    /** `Stringify` from the name buffer, which must be long enough for a sequence at
        which the printing fails. */
    method Stringify(uri: bool, ghost ts: seq<Token>) returns (ok: bool, os: Text, ghost overrun: bool)
      requires parseErrorCode.None? && Holds(ts)
      requires uri ==> Reach(ts, 0) <= nameBuffer.Length
      ensures match Pointers.Stringify(ts, uri)
              case Some(s) => ok && os == s
              case None => !ok
      ensures overrun == (uri && Reach(ts, 0) > nameEnd) && nameEnd == NamesEnd(ts, 0)
    {
      hide Laid, Stands, Spelled, PrintFrom, PrintTokens, Reach, NameReach, NamesEnd;
      ghost var raw, buf := tokens[..tokenCount], nameBuffer[..];
      LaidCount(raw, buf, ts, nameEnd);
      ok, os, overrun := true, if uri then [HASH] else [], false;
      ghost var start := os;
      ghost var p := 0;
      assert ts[0..] == ts;
      FirstPlace(raw, buf, ts, nameEnd);
      NamesLaid(raw, buf, ts, nameEnd, 0);
      for k := 0 to tokenCount
        invariant ok && !overrun && p == PlaceOf(raw, nameEnd, k)
        invariant Behind(start, PrintTokens(ts, uri)) == Behind(os, PrintTokens(ts[k..], uri))
        invariant uri ==> Reach(ts, 0) == Reach(ts[k..], p)
      {
        LaidAt(raw, buf, ts, nameEnd, k);
        TokensStep(ts[k..], uri, os, p);
        assert ts[k..][1..] == ts[k + 1..];
        os := os + [SLASH];
        ok, os, overrun := PrintName(nameBuffer, tokens[k].name, tokens[k].length, uri, os, ts[k].name, nameEnd);
        if !ok { return; }
        p := p + |ts[k].name| + 1;
      }
      TokensEnd(ts, uri, os, p);
      LaidEnd(raw, buf, ts, nameEnd);
    }

    method Fail(code: PointerError, offset: nat)
      modifies this
      ensures parseErrorCode == Some(code) && parseErrorOffset == offset && tokenCount == 0
      ensures fresh(tokens) && fresh(nameBuffer)
    {
      nameBuffer, tokens := new Byte[0], new RawToken[0];
      tokenCount, nameEnd := 0, 0;
      parseErrorCode, parseErrorOffset := Some(code), offset;
    }
  }

  /** Where the `k`th name begins; behind the last one, where the names end. */
  function PlaceOf(raw: seq<RawToken>, end: nat, k: nat): nat {
    if k < |raw| then raw[k].name else end
  }

  /** The names fill the buffer up to where their lengths say. */
  lemma {:induction false} NamesLaid(raw: seq<RawToken>, buf: seq<Byte>, tokens: seq<Token>, end: nat, k: nat)
    requires Laid(raw, buf, tokens, end) && k <= |raw| && |tokens| == |raw|
    ensures NamesEnd(tokens[k..], PlaceOf(raw, end, k)) == end
    decreases |raw| - k
  {
    hide Laid;
    if k < |raw| {
      LaidAt(raw, buf, tokens, end, k);
      NamesLaid(raw, buf, tokens, end, k + 1);
      assert tokens[k..][1..] == tokens[k + 1..];
    }
  }

  lemma FirstPlace(raw: seq<RawToken>, buf: seq<Byte>, tokens: seq<Token>, end: nat)
    requires Laid(raw, buf, tokens, end)
    ensures PlaceOf(raw, end, 0) == 0
  {
  }

  lemma LaidAt(raw: seq<RawToken>, buf: seq<Byte>, tokens: seq<Token>, end: nat, k: nat)
    requires Laid(raw, buf, tokens, end) && k < |raw|
    ensures |tokens| == |raw| && raw[k].length == |tokens[k].name| && end <= |buf|
    ensures Spelled(buf, raw[k].name, tokens[k].name) && raw[k].name + raw[k].length < end
    ensures PlaceOf(raw, end, k + 1) == raw[k].name + raw[k].length + 1
  {
    assert Stands(raw[k], buf, tokens[k], end);
    var a, b := raw[k].name, raw[k].name + raw[k].length;
    assert forall i :: a <= i < b ==> buf[a..b][i - a] == buf[i];
  }

  lemma TokensStep(ts: seq<Token>, uri: bool, os: Text, p: nat)
    requires ts != []
    ensures var name := PrintFrom(ts[0].name, 0, uri);
            Behind(os, PrintTokens(ts, uri)) ==
            if name.None? then None else Behind(os + [SLASH] + name.value, PrintTokens(ts[1..], uri))
    ensures Reach(ts, p) == if PrintFrom(ts[0].name, 0, true).None? then p + NameReach(ts[0].name, 0)
                            else Reach(ts[1..], p + |ts[0].name| + 1)
  {
    hide PrintFrom, NameReach;
    var name, rest := PrintFrom(ts[0].name, 0, uri), PrintTokens(ts[1..], uri);
    if name.Some? && rest.Some? {
      assert os + ([SLASH] + (name.value + rest.value)) == os + [SLASH] + name.value + rest.value;
    }
  }

  lemma TokensEnd(ts: seq<Token>, uri: bool, os: Text, p: nat)
    ensures Behind(os, PrintTokens(ts[|ts|..], uri)) == Some(os) && Reach(ts[|ts|..], p) == p
  {
    assert os + [] == os;
  }

  lemma NewStands(r: RawToken, buf: seq<Byte>, token: Token, end: nat)
    requires r.name + r.length < end <= |buf| && buf[r.name..r.name + r.length] == token.name
    requires buf[r.name + r.length] == 0 && r.index == token.index
    ensures Stands(r, buf, token, end)
  {
  }

  lemma LaidEnd(raw: seq<RawToken>, buf: seq<Byte>, tokens: seq<Token>, end: nat)
    requires Laid(raw, buf, tokens, end)
    ensures end <= |buf| && end == (if raw == [] then 0 else raw[|raw| - 1].name + raw[|raw| - 1].length + 1)
  {
  }

  lemma LaidCount(raw: seq<RawToken>, buf: seq<Byte>, tokens: seq<Token>, end: nat)
    requires Laid(raw, buf, tokens, end)
    ensures |raw| == |tokens|
  {
  }

  lemma LaidNext(raw: seq<RawToken>, buf: seq<Byte>, tokens: seq<Token>, end: nat, k: nat)
    requires Laid(raw, buf, tokens, end) && k < |raw|
    ensures raw[k].name == if k == 0 then 0 else raw[k - 1].name + raw[k - 1].length + 1
  {
  }

  lemma LaidKept(raw: seq<RawToken>, buf: seq<Byte>, tokens: seq<Token>, end: nat, buf2: seq<Byte>)
    requires Laid(raw, buf, tokens, end) && |buf2| >= end && buf2[..end] == buf[..end]
    ensures Laid(raw, buf2, tokens, end)
  {
    hide Stands;
    forall k | 0 <= k < |raw| ensures Stands(raw[k], buf2, tokens[k], end) {
      StandsKept(raw[k], buf, tokens[k], end, buf2, end);
    }
  }

  lemma TokensDiffer(ts: seq<Token>, us: seq<Token>, i: nat)
    requires i < |ts| && i < |us| && ts[i] != us[i]
    ensures ts != us
  {
  }

  method CountSlashes(source: Text) returns (n: nat)
    ensures n == Slashes(source, 0)
  {
    n := 0;
    for s := 0 to |source|
      invariant Slashes(source, 0) == n + Slashes(source, s)
    {
      if source[s] == SLASH { n := n + 1; }
    }
  }

  lemma NothingLaid(buf: seq<Byte>)
    ensures Laid([], buf, [], 0)
  {
  }

  lemma HeadNoSlash(t: Text)
    ensures At(t, 0) == HASH ==> Slashes(t, 0) == Slashes(t, 1)
  {
  }

  lemma PrependNone(p: Parsed)
    ensures Prepend([], p) == p
  {
    if p.Tokens? { assert [] + p.tokens == p.tokens; }
  }

  /** One turn of the loop over the tokens. */
  lemma TokenStep(t: Text, i: nat, uri: bool, done: seq<Token>)
    requires i < |t| && t[i] == SLASH
    ensures Slashes(t, i) >= 1
    ensures var n := NameFrom(t, i + 1, uri, []);
            n.BadName? ==> Prepend(done, TokensFrom(t, i, uri)) == BadPointer(n.code, n.offset)
    ensures var n := NameFrom(t, i + 1, uri, []);
            n.Name? ==> Slashes(t, i) == 1 + Slashes(t, n.end)
    ensures var n := NameFrom(t, i + 1, uri, []);
            n.Name? ==> Prepend(done, TokensFrom(t, i, uri)) ==
                        Prepend(done + [Token(n.name, IndexOf(n.name))], TokensFrom(t, n.end, uri))
  {
    hide NameFrom, IndexOf;
    var n := NameFrom(t, i + 1, uri, []);
    if n.Name? {
      SlashesKept(t, i + 1, uri, []);
      var token, rest := Token(n.name, IndexOf(n.name)), TokensFrom(t, n.end, uri);
      if rest.Tokens? { assert done + ([token] + rest.tokens) == done + [token] + rest.tokens; }
    }
  }

  lemma NoMoreTokens(t: Text, uri: bool, done: seq<Token>)
    ensures Slashes(t, |t|) == 0 && Prepend(done, TokensFrom(t, |t|, uri)) == Tokens(done)
  {
    assert done + [] == done;
  }
}
