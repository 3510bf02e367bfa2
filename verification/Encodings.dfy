/** UTF-8 and UTF-16 conversion (encodings.h). The bit operations on disjoint
    bit fields are written with `/`, `%` and `+`; the mask tests keep `&`. */
module Utf8 {
  import opened Bytes

  predicate IsScalar(cp: int) {
    0 <= cp <= 0x10FFFF && !(0xD800 <= cp <= 0xDFFF)
  }

  /** Accepted by `UTF8::Encode`, which does not reject surrogates. */
  predicate IsCodepoint(cp: int) {
    0 <= cp <= 0x10FFFF
  }

  function Encode(cp: int): (s: Text)
    requires IsCodepoint(cp)
    ensures 1 <= |s| <= 4
  {
    if cp <= 0x7F then
      [cp]
    else if cp <= 0x7FF then
      [0xC0 + cp / 0x40, 0x80 + cp % 0x40]
    else if cp <= 0xFFFF then
      [0xE0 + cp / 0x1000, 0x80 + cp / 0x40 % 0x40, 0x80 + cp % 0x40]
    else
      [0xF0 + cp / 0x40000, 0x80 + cp / 0x1000 % 0x40, 0x80 + cp / 0x40 % 0x40, 0x80 + cp % 0x40]
  }

  /** The character class table of `GetRange`. */
  function GetRange(c: Byte): bv8 {
    if c < 0x80 then 0
    else if c < 0x90 then 0x10
    else if c < 0xA0 then 0x40
    else if c < 0xC0 then 0x20
    else if c < 0xC2 then 8
    else if c < 0xE0 then 2
    else if c == 0xE0 then 10
    else if c == 0xED then 4
    else if c < 0xF0 then 3
    else if c == 0xF0 then 11
    else if c < 0xF4 then 6
    else if c == 0xF4 then 5
    else 8
  }

  /** `TRANS(mask)`. */
  predicate Trans(c: Byte, mask: bv8) {
    GetRange(c) & mask != 0
  }

  /** The masks which the `switch` on the class of the lead byte tests, in order;
      `None` is the `default` branch. */
  function Masks(lead: Byte): (m: Option<seq<bv8>>)
    ensures m.Some? ==> 1 <= |m.value| <= 3
  {
    var type_ := GetRange(lead);
    if type_ == 2 then Some([0x70])
    else if type_ == 3 then Some([0x70, 0x70])
    else if type_ == 4 then Some([0x50, 0x70])
    else if type_ == 5 then Some([0x10, 0x70, 0x70])
    else if type_ == 6 then Some([0x70, 0x70, 0x70])
    else if type_ == 10 then Some([0x20, 0x70])
    else if type_ == 11 then Some([0x60, 0x70, 0x70])
    else None
  }

  /** How many bytes `Decode` and `Validate` take at a lead byte, whatever follows it. */
  function Taken(lead: Byte): (n: nat)
    ensures 1 <= n <= 4
  {
    if lead < 0x80 then 1
    else match Masks(lead) case None => 1 case Some(m) => 1 + |m|
  }

  /** The length that the lead byte at `p` announces leads behind the NUL. */
  predicate CutShort(t: Text, p: nat) {
    p < |t| && p + Taken(t[p]) > |t| + 1
  }

  /** The result of `UTF8::Validate` on the bytes from `p`. */
  predicate Valid(t: Text, p: nat) {
    var lead := At(t, p);
    || lead < 0x80
    || match Masks(lead)
       case None => false
       case Some(m) =>
         && Trans(At(t, p + 1), m[0])
         && (|m| > 1 ==> Trans(At(t, p + 2), m[1]))
         && (|m| > 2 ==> Trans(At(t, p + 3), m[2]))
  }

  /** The bits of the lead byte that `(0xFF >> type) & c` keeps. */
  function LeadBits(lead: Byte): nat {
    var type_ := GetRange(lead);
    if type_ == 2 then lead % 0x40
    else if type_ == 3 then lead % 0x20
    else if type_ == 4 then lead % 0x10
    else if type_ == 5 then lead % 0x08
    else if type_ == 6 then lead % 0x04
    else if type_ == 8 then lead % 0x01
    else 0
  }

  /** `COPY()`: shift in the six bits of a tail byte. */
  function Shift(cp: nat, c: Byte): nat {
    cp * 0x40 + c % 0x40
  }

  /** The code point `UTF8::Decode` leaves behind. */
  function Decoded(t: Text, p: nat): nat {
    var lead := At(t, p);
    var n := Taken(lead);
    var cp1 := Shift(LeadBits(lead), At(t, p + 1));
    var cp2 := Shift(cp1, At(t, p + 2));
    if lead < 0x80 then lead
    else if n == 1 then LeadBits(lead)
    else if n == 2 then cp1
    else if n == 3 then cp2
    else Shift(cp2, At(t, p + 3))
  }

  /** The production UTF8-char of RFC 3629, section 4. */
  predicate IsUtf8Char(s: Text) {
    || (|s| == 1 && s[0] <= 0x7F)
    || (|s| == 2 && 0xC2 <= s[0] <= 0xDF && IsTail(s[1]))
    || (|s| == 3 && IsTail(s[2]) &&
        (|| (s[0] == 0xE0 && 0xA0 <= s[1] <= 0xBF)
         || (0xE1 <= s[0] <= 0xEC && IsTail(s[1]))
         || (s[0] == 0xED && 0x80 <= s[1] <= 0x9F)
         || (0xEE <= s[0] <= 0xEF && IsTail(s[1]))))
    || (|s| == 4 && IsTail(s[2]) && IsTail(s[3]) &&
        (|| (s[0] == 0xF0 && 0x90 <= s[1] <= 0xBF)
         || (0xF1 <= s[0] <= 0xF3 && IsTail(s[1]))
         || (s[0] == 0xF4 && 0x80 <= s[1] <= 0x8F)))
  }

  predicate IsTail(b: Byte) {
    0x80 <= b <= 0xBF
  }

  /** The production UTF8-octets of RFC 3629, section 4. */
  ghost predicate IsUtf8Octets(s: Text)
    decreases |s|
  {
    s == [] || exists n :: 1 <= n <= |s| && IsUtf8Char(s[..n]) && IsUtf8Octets(s[n..])
  }

  /** `Validate` called until the stream is used up. */
  predicate AllValid(t: Text, p: nat)
    decreases |t| - p
  {
    p >= |t| || (Valid(t, p) && AllValid(t, p + Taken(t[p])))
  }

  predicate Scalars(cps: seq<nat>) {
    forall i :: 0 <= i < |cps| ==> IsScalar(cps[i])
  }

  function EncodeAll(cps: seq<nat>): Text
    requires Scalars(cps)
  {
    if cps == [] then [] else Encode(cps[0]) + EncodeAll(cps[1..])
  }

  /** `Decode` called until the stream is used up or a call fails. */
  function DecodeAll(t: Text, p: nat): Option<seq<nat>>
    decreases |t| - p
  {
    if p >= |t| then Some([])
    else if !Valid(t, p) then None
    else match DecodeAll(t, p + Taken(t[p]))
      case None => None
      case Some(rest) => Some([Decoded(t, p)] + rest)
  }

  lemma CharAt(t: Text, p: nat, n: nat)
    requires p + n <= |t| && n <= 4
    ensures t[p..p + n] == [At(t, p), At(t, p + 1), At(t, p + 2), At(t, p + 3)][..n]
  {
  }

  lemma EncodeIsChar(cp: nat)
    requires IsScalar(cp)
    ensures IsUtf8Char(Encode(cp))
  {
  }

  /** The length of a UTF8-char is fixed by its first byte. */
  lemma CharLength(s: Text)
    requires IsUtf8Char(s)
    ensures |s| == Taken(s[0])
  {
  }

  /** The automaton of `Validate` takes exactly one UTF8-char of the grammar. */
  lemma ValidIsUtf8Char(t: Text, p: nat)
    requires p < |t|
    ensures Valid(t, p) <==> p + Taken(t[p]) <= |t| && IsUtf8Char(t[p..p + Taken(t[p])])
  {
    var n := Taken(t[p]);
    if p + n <= |t| {
      CharAt(t, p, n);
      var w := t[p..p + n];
      assert w[0] == t[p];
      if n == 2 {
        assert w[1] == At(t, p + 1);
      } else if n == 3 {
        assert w[1] == At(t, p + 1) && w[2] == At(t, p + 2);
      } else if n == 4 {
        assert w[1] == At(t, p + 1) && w[2] == At(t, p + 2) && w[3] == At(t, p + 3);
      }
    }
  }

  /** The NUL is no tail byte. */
  lemma NulNoTail(mask: bv8)
    ensures !Trans(0, mask)
  {
  }

  /** This is so for these lead bytes only, and in the last two places. */
  lemma CutShortBytes(t: Text, p: nat)
    ensures CutShort(t, p) <==>
            || (p + 1 == |t| && 0xE0 <= t[p] <= 0xF4)
            || (p + 2 == |t| && 0xF0 <= t[p] <= 0xF4)
  {
  }

  /** `Valid` as the loop over the tail bytes sees it. */
  lemma ValidByMasks(t: Text, p: nat)
    requires p < |t|
    ensures t[p] < 0x80 ==> Valid(t, p) && Taken(t[p]) == 1
    ensures t[p] >= 0x80 && Masks(t[p]).None? ==> !Valid(t, p) && Taken(t[p]) == 1
    ensures t[p] >= 0x80 && Masks(t[p]).Some? ==>
              var m := Masks(t[p]).value;
              && Taken(t[p]) == 1 + |m|
              && (Valid(t, p) <==> forall j :: 0 <= j < |m| ==> Trans(At(t, p + 1 + j), m[j]))
    ensures Valid(t, p) ==> p + Taken(t[p]) <= |t|
  {
    hide Trans;
    ValidIsUtf8Char(t, p);
  }

  /** The code point after `k` tail bytes have been shifted in. */
  function Shifted(t: Text, p: nat, k: nat): nat {
    if k == 0 then LeadBits(At(t, p)) else Shift(Shifted(t, p, k - 1), At(t, p + k))
  }

  /** `Valid`, `Taken` and `Decoded` as the loop over the tail bytes sees them. */
  lemma LeadCases(t: Text, p: nat)
    ensures At(t, p) < 0x80 ==> Valid(t, p) && Taken(At(t, p)) == 1 && Decoded(t, p) == At(t, p)
    ensures At(t, p) >= 0x80 && Masks(At(t, p)).None? ==> !Valid(t, p) && Taken(At(t, p)) == 1
    ensures At(t, p) >= 0x80 && Masks(At(t, p)).Some? ==>
              var m := Masks(At(t, p)).value;
              && Taken(At(t, p)) == 1 + |m| && Decoded(t, p) == Shifted(t, p, |m|)
              && (Valid(t, p) <==> forall j :: 0 <= j < |m| ==> Trans(At(t, p + 1 + j), m[j]))
  {
    hide Trans, LeadBits;
    if At(t, p) >= 0x80 {
      assert p < |t|;
      ValidByMasks(t, p);
      assert Shifted(t, p, 1) == Shift(Shifted(t, p, 0), At(t, p + 1));
      assert Shifted(t, p, 2) == Shift(Shifted(t, p, 1), At(t, p + 2));
      assert Shifted(t, p, 3) == Shift(Shifted(t, p, 2), At(t, p + 3));
    }
  }

  /** Repeated `Validate` accepts exactly UTF8-octets. */
  lemma {:induction false} AllValidIsUtf8Octets(t: Text, p: nat)
    requires p <= |t|
    ensures AllValid(t, p) <==> IsUtf8Octets(t[p..])
    decreases |t| - p
  {
    if p < |t| {
      ValidIsUtf8Char(t, p);
      var s := t[p..];
      var n := Taken(t[p]);
      if p + n <= |t| {
        AllValidIsUtf8Octets(t, p + n);
        assert s[..n] == t[p..p + n] && s[n..] == t[p + n..];
      }
      if IsUtf8Octets(s) { FirstOctets(t, p); }
    }
  }

  /** The first character of UTF8-octets is as long as its first byte says. */
  lemma FirstOctets(t: Text, p: nat)
    requires p < |t| && IsUtf8Octets(t[p..])
    ensures var n := Taken(t[p]);
            p + n <= |t| && IsUtf8Char(t[p..p + n]) && IsUtf8Octets(t[p + n..])
  {
    hide IsUtf8Char, Taken;
    var s := t[p..];
    var k :| 1 <= k <= |s| && IsUtf8Char(s[..k]) && IsUtf8Octets(s[k..]);
    CharLength(s[..k]);
    assert s[..k] == t[p..p + k] && s[k..] == t[p + k..] && s[..k][0] == t[p];
  }

  /** The value of the bit fields that a code point is cut into. */
  function Join(g: nat, h: nat, m: nat, l: nat): nat {
    g * 0x40000 + h * 0x1000 + m * 0x40 + l
  }

  lemma Digits(cp: nat)
    ensures cp == Join(0, 0, cp / 0x40, cp % 0x40)
    ensures cp == Join(0, cp / 0x1000, cp / 0x40 % 0x40, cp % 0x40)
    ensures cp == Join(cp / 0x40000, cp / 0x1000 % 0x40, cp / 0x40 % 0x40, cp % 0x40)
  {
    assert cp / 0x40 == cp / 0x1000 * 0x40 + cp / 0x40 % 0x40;
    assert cp / 0x1000 == cp / 0x40000 * 0x40 + cp / 0x1000 % 0x40;
  }

  lemma DigitsUnique(g: nat, h: nat, m: nat, l: nat)
    requires h < 0x40 && m < 0x40 && l < 0x40
    ensures var cp := Join(g, h, m, l);
            && cp % 0x40 == l && cp / 0x40 % 0x40 == m && cp / 0x1000 % 0x40 == h && cp / 0x40000 == g
            && (g == 0 ==> cp / 0x1000 == h && (h == 0 ==> cp / 0x40 == m))
  {
    var cp := Join(g, h, m, l);
    assert cp / 0x40 == g * 0x1000 + h * 0x40 + m;
    assert cp / 0x1000 == g * 0x40 + h;
  }

  /** The code point whose fields stand in the UTF8-char `s`. */
  function Fields(s: Text): nat
    requires IsUtf8Char(s)
  {
    if |s| == 1 then s[0]
    else if |s| == 2 then Join(0, 0, s[0] - 0xC0, s[1] - 0x80)
    else if |s| == 3 then Join(0, s[0] - 0xE0, s[1] - 0x80, s[2] - 0x80)
    else Join(s[0] - 0xF0, s[1] - 0x80, s[2] - 0x80, s[3] - 0x80)
  }

  lemma DecodedIsFields(t: Text, p: nat, s: Text)
    requires IsUtf8Char(s) && |s| <= 4 && s == [At(t, p), At(t, p + 1), At(t, p + 2), At(t, p + 3)][..|s|]
    ensures Decoded(t, p) == Fields(s)
  {
    hide At, LeadBits, Taken;
    CharLength(s);
    assert s[0] == At(t, p);
    LeadFields(s);
    if |s| >= 2 { TailField(s[1]); }
    if |s| >= 3 { TailField(s[2]); }
    if |s| >= 4 { TailField(s[3]); }
  }

  lemma TailField(c: Byte)
    requires IsTail(c)
    ensures c % 0x40 == c - 0x80
  {
  }

  lemma LeadFields(s: Text)
    requires IsUtf8Char(s)
    ensures |s| == 1 || Taken(s[0]) == |s|
    ensures |s| == 1 ==> s[0] < 0x80
    ensures |s| >= 2 ==> s[0] >= 0x80 && IsTail(s[1])
    ensures |s| >= 3 ==> IsTail(s[2])
    ensures |s| >= 4 ==> IsTail(s[3])
    ensures |s| == 2 ==> LeadBits(s[0]) == s[0] - 0xC0
    ensures |s| == 3 ==> LeadBits(s[0]) == s[0] - 0xE0
    ensures |s| == 4 ==> LeadBits(s[0]) == s[0] - 0xF0
  {
  }

  lemma FieldsRange(s: Text)
    requires IsUtf8Char(s)
    ensures IsScalar(Fields(s))
    ensures match |s|
            case 1 => Fields(s) <= 0x7F
            case 2 => 0x80 <= Fields(s) <= 0x7FF
            case 3 => 0x800 <= Fields(s) <= 0xFFFF
            case _ => 0x10000 <= Fields(s)
  {
  }

  lemma EncodeFields(s: Text)
    requires IsUtf8Char(s)
    ensures IsScalar(Fields(s)) && Encode(Fields(s)) == s
  {
    FieldsRange(s);
    if |s| == 2 {
      DigitsUnique(0, 0, s[0] - 0xC0, s[1] - 0x80);
    } else if |s| == 3 {
      DigitsUnique(0, s[0] - 0xE0, s[1] - 0x80, s[2] - 0x80);
    } else if |s| == 4 {
      DigitsUnique(s[0] - 0xF0, s[1] - 0x80, s[2] - 0x80, s[3] - 0x80);
    }
  }

  lemma FieldsEncode(cp: nat)
    requires IsScalar(cp)
    ensures IsUtf8Char(Encode(cp)) && Fields(Encode(cp)) == cp
  {
    EncodeIsChar(cp);
    Digits(cp);
  }

  /** `Encode` of a scalar value is a UTF8-char that `Decode` turns back into it,
      whatever follows. */
  lemma DecodeEncode(t: Text, p: nat, cp: nat)
    requires IsScalar(cp)
    requires Occurs(t, p, Encode(cp))
    ensures Valid(t, p) && Taken(t[p]) == |Encode(cp)| && Decoded(t, p) == cp
  {
    var s := Encode(cp);
    FieldsEncode(cp);
    CharLength(s);
    OccursAt(t, p, s, 0);
    CharAt(t, p, |s|);
    ValidIsUtf8Char(t, p);
    DecodedIsFields(t, p, s);
  }

  /** What `Decode` accepts is the encoding of one scalar value. */
  lemma EncodeDecode(t: Text, p: nat)
    requires p < |t| && Valid(t, p)
    ensures IsScalar(Decoded(t, p)) && p + Taken(t[p]) <= |t|
    ensures Encode(Decoded(t, p)) == t[p..p + Taken(t[p])]
  {
    ValidIsUtf8Char(t, p);
    var s := t[p..p + Taken(t[p])];
    CharAt(t, p, |s|);
    DecodedIsFields(t, p, s);
    EncodeFields(s);
  }

  /** Decoding a concatenation of encodings returns the encoded scalar values. */
  lemma {:induction false} DecodeEncodeAll(t: Text, p: nat, cps: seq<nat>)
    requires Scalars(cps)
    requires p <= |t| && t[p..] == EncodeAll(cps)
    ensures DecodeAll(t, p) == Some(cps)
    decreases |cps|
  {
    hide Encode, Decoded, Valid, Taken;
    if cps != [] {
      var a, b := Encode(cps[0]), EncodeAll(cps[1..]);
      assert Occurs(t, p, a + b);
      OccursConcat(t, p, a, b);
      DecodeEncode(t, p, cps[0]);
      assert t[p + |a|..] == t[p..][|a|..] == b;
      DecodeEncodeAll(t, p + |a|, cps[1..]);
      assert [cps[0]] + cps[1..] == cps;
    }
  }

  lemma EncodeAllCons(cp: nat, cps: seq<nat>)
    requires IsScalar(cp) && Scalars(cps)
    ensures Scalars([cp] + cps) && EncodeAll([cp] + cps) == Encode(cp) + EncodeAll(cps)
  {
    assert ([cp] + cps)[1..] == cps;
  }

  /** `Decode` accepts the language of `Validate`, and encoding what it returned
      gives the stream back. */
  lemma {:induction false} EncodeDecodeAll(t: Text, p: nat)
    requires p <= |t|
    ensures DecodeAll(t, p).Some? <==> AllValid(t, p)
    ensures DecodeAll(t, p).Some? ==>
              Scalars(DecodeAll(t, p).value) && EncodeAll(DecodeAll(t, p).value) == t[p..]
    decreases |t| - p
  {
    hide Encode, Decoded, Valid, Taken;
    if p < |t| && Valid(t, p) {
      EncodeDecode(t, p);
      var n := Taken(t[p]);
      EncodeDecodeAll(t, p + n);
      assert t[p..] == t[p..p + n] + t[p + n..];
      if DecodeAll(t, p + n).Some? {
        EncodeAllCons(Decoded(t, p), DecodeAll(t, p + n).value);
      }
    }
  }

  /** No encoding is a proper prefix of another. */
  lemma PrefixFree(a: nat, b: nat)
    requires IsScalar(a) && IsScalar(b)
    requires Encode(a) <= Encode(b)
    ensures a == b
  {
    var t := Encode(b);
    assert t[0..|Encode(a)|] == Encode(a);
    assert t[0..|t|] == t;
    DecodeEncode(t, 0, a);
    DecodeEncode(t, 0, b);
  }
}
