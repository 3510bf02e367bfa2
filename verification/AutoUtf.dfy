/** The five stream encodings behind a byte-order mark: `AutoUTF`,
    `AutoUTFOutputStream` and `AutoUTFInputStream` with a 32-bit `Ch`. */
module AutoUtf {
  import opened Bytes
  import opened Utf8

  datatype UtfType = UTF8 | UTF16LE | UTF16BE | UTF32LE | UTF32BE

  /** The code units that `Encode` of the encoding puts for one code point. */
  function Units(type_: UtfType, cp: nat): (us: seq<nat>)
    requires IsScalar(cp)
    ensures |us| >= 1
  {
    match type_
    case UTF8 => Encode(cp)
    case UTF16LE | UTF16BE =>
      if cp <= 0xFFFF then [cp] else [(cp - 0x10000) / 0x400 + 0xD800, (cp - 0x10000) % 0x400 + 0xDC00]
    case UTF32LE | UTF32BE => [cp]
  }

  function Width(type_: UtfType): nat {
    match type_
    case UTF8 => 1
    case UTF16LE | UTF16BE => 2
    case UTF32LE | UTF32BE => 4
  }

  /** `Put` of the encoding: the bytes of one code unit. */
  function UnitBytes(type_: UtfType, c: nat): (s: Text)
    ensures |s| == Width(type_)
  {
    var b0, b1, b2, b3 := c % 0x100, c / 0x100 % 0x100, c / 0x10000 % 0x100, c / 0x1000000 % 0x100;
    match type_
    case UTF8 => [b0]
    case UTF16LE => [b0, b1]
    case UTF16BE => [b1, b0]
    case UTF32LE => [b0, b1, b2, b3]
    case UTF32BE => [b3, b2, b1, b0]
  }

  function Bom(type_: UtfType): Text {
    match type_
    case UTF8 => [0xEF, 0xBB, 0xBF]
    case UTF16LE => [0xFF, 0xFE]
    case UTF16BE => [0xFE, 0xFF]
    case UTF32LE => [0xFF, 0xFE, 0x00, 0x00]
    case UTF32BE => [0x00, 0x00, 0xFE, 0xFF]
  }

  function UnitsBytes(type_: UtfType, us: seq<nat>): (s: Text)
    ensures |s| == |us| * Width(type_)
  {
    if us == [] then [] else UnitBytes(type_, us[0]) + UnitsBytes(type_, us[1..])
  }

  /** The bytes that `AutoUTF::Encode` sends through the stream for one code point. */
  function CharBytes(type_: UtfType, cp: nat): Text
    requires IsScalar(cp)
  {
    UnitsBytes(type_, Units(type_, cp))
  }

  function TextBytes(type_: UtfType, cps: seq<nat>): Text
    requires Scalars(cps)
  {
    if cps == [] then [] else CharBytes(type_, cps[0]) + TextBytes(type_, cps[1..])
  }

  /** A whole output stream opened with `putBOM`. */
  function Written(type_: UtfType, cps: seq<nat>): Text
    requires Scalars(cps)
  {
    Bom(type_) + TextBytes(type_, cps)
  }

  /** `Take` of the encoding: the code unit in the bytes from `p`. */
  function UnitAt(type_: UtfType, t: Text, p: nat): nat {
    match type_
    case UTF8 => At(t, p)
    case UTF16LE => At(t, p) + At(t, p + 1) * 0x100
    case UTF16BE => At(t, p) * 0x100 + At(t, p + 1)
    case UTF32LE => At(t, p) + At(t, p + 1) * 0x100 + At(t, p + 2) * 0x10000 + At(t, p + 3) * 0x1000000
    case UTF32BE => At(t, p) * 0x1000000 + At(t, p + 1) * 0x10000 + At(t, p + 2) * 0x100 + At(t, p + 3)
  }

  /** One call of `AutoUTF::Decode` at byte `p`: success, code point, bytes taken. */
  function DecodeAt(type_: UtfType, t: Text, p: nat): (bool, nat, nat) {
    var c := UnitAt(type_, t, p);
    match type_
    case UTF8 => (Valid(t, p), Decoded(t, p), Taken(At(t, p)))
    case UTF16LE | UTF16BE =>
      if c < 0xD800 || c > 0xDFFF then (true, c, 2)
      else if c <= 0xDBFF then
        var d := UnitAt(type_, t, p + 2);
        (0xDC00 <= d <= 0xDFFF, c % 0x400 * 0x400 + d % 0x400 + 0x10000, 4)
      else (false, 0, 2)
    case UTF32LE | UTF32BE => (c <= 0x10FFFF, c, 4)
  }

  /** `Decode` called until the stream is used up or a call fails. */
  function ReadAll(type_: UtfType, t: Text, p: nat): Option<seq<nat>>
    decreases |t| - p
  {
    if p >= |t| then Some([])
    else
      var (ok, cp, n) := DecodeAt(type_, t, p);
      if !ok || n == 0 then None
      else match ReadAll(type_, t, p + n)
        case None => None
        case Some(rest) => Some([cp] + rest)
  }

  datatype Detection = Detection(type_: UtfType, hasBom: bool, skipped: nat)

  /** The encoding whose mark the first four bytes, as a little-endian word, begin with. */
  function Mark(bom: nat): Option<UtfType> {
    if bom == 0xFFFE0000 then Some(UTF32BE)
    else if bom == 0x0000FEFF then Some(UTF32LE)
    else if bom % 0x10000 == 0xFFFE then Some(UTF16BE)
    else if bom % 0x10000 == 0xFEFF then Some(UTF16LE)
    else if bom % 0x1000000 == 0xBFBBEF then Some(UTF8)
    else None
  }

  /** `DetectType` on a stream of at least four bytes; `default_` is the type the
      caller gave. */
  function Detect(t: Text, default_: UtfType): Detection {
    if |t| < 4 then Detection(default_, false, 0)
    else match Mark(UnitAt(UTF32LE, t, 0))
      case Some(type_) => Detection(type_, true, |Bom(type_)|)
      case None => Detection(ByNulls(t, default_), false, 0)
  }

  /** What the null bytes among the first four say, section 3 of RFC 4627. */
  function ByNulls(t: Text, default_: UtfType): UtfType
    requires |t| >= 4
  {
    var nonzero := [t[0] != 0, t[1] != 0, t[2] != 0, t[3] != 0];
    if nonzero == [false, false, false, true] then UTF32BE
    else if nonzero == [false, true, false, true] then UTF16BE
    else if nonzero == [true, false, false, false] then UTF32LE
    else if nonzero == [true, false, true, false] then UTF16LE
    else if nonzero == [true, true, true, true] then UTF8
    else default_
  }

  lemma UnitAtUnitBytes(type_: UtfType, t: Text, p: nat, c: nat)
    requires Occurs(t, p, UnitBytes(type_, c))
    requires match type_ case UTF8 => c < 0x100 case UTF16LE | UTF16BE => c < 0x10000 case _ => c < 0x1_0000_0000
    ensures UnitAt(type_, t, p) == c
  {
    var s := UnitBytes(type_, c);
    OccursAt(t, p, s, 0);
    if |s| > 1 { OccursAt(t, p, s, 1); }
    if |s| > 3 { OccursAt(t, p, s, 2); OccursAt(t, p, s, 3); }
    assert c == c % 0x100 + c / 0x100 % 0x100 * 0x100 + c / 0x10000 % 0x100 * 0x10000 + c / 0x1000000 * 0x1000000 by {
      assert c / 0x100 == c / 0x100 % 0x100 + c / 0x10000 * 0x100;
      assert c / 0x10000 == c / 0x10000 % 0x100 + c / 0x1000000 * 0x100;
    }
  }

  lemma CharBytesPair(type_: UtfType, u: nat, v: nat)
    ensures UnitsBytes(type_, [u]) == UnitBytes(type_, u)
    ensures UnitsBytes(type_, [u, v]) == UnitBytes(type_, u) + UnitBytes(type_, v)
  {
    assert [u, v][1..] == [v];
    assert [v][1..] == [];
  }

  lemma {:induction false} Utf8Bytes(us: Text)
    ensures UnitsBytes(UTF8, us) == us
  {
    if us != [] {
      Utf8Bytes(us[1..]);
      assert us == [us[0]] + us[1..];
    }
  }

  lemma SurrogatePair(cp: nat)
    requires 0xFFFF < cp <= 0x10FFFF
    ensures var hi := (cp - 0x10000) / 0x400 + 0xD800;
            var lo := (cp - 0x10000) % 0x400 + 0xDC00;
            && 0xD800 <= hi <= 0xDBFF && 0xDC00 <= lo <= 0xDFFF
            && hi % 0x400 * 0x400 + lo % 0x400 + 0x10000 == cp
  {
    var v := cp - 0x10000;
    assert (v / 0x400 + 0xD800) % 0x400 == v / 0x400;
    assert (v % 0x400 + 0xDC00) % 0x400 == v % 0x400;
  }

  /** In every encoding, one code point is read back from its bytes. */
  lemma DecodeCharBytes(type_: UtfType, t: Text, p: nat, cp: nat)
    requires IsScalar(cp) && Occurs(t, p, CharBytes(type_, cp))
    ensures DecodeAt(type_, t, p) == (true, cp, |CharBytes(type_, cp)|)
    ensures |CharBytes(type_, cp)| >= Width(type_)
  {
    hide Encode, Decoded, Valid, Taken, UnitBytes, UnitAt;
    var us := Units(type_, cp);
    if type_ == UTF8 {
      Utf8Bytes(Encode(cp));
      DecodeEncode(t, p, cp);
    } else if |us| == 1 {
      CharBytesPair(type_, cp, 0);
      UnitAtUnitBytes(type_, t, p, cp);
    } else {
      CharBytesPair(type_, us[0], us[1]);
      SurrogatePair(cp);
      assert us == [us[0], us[1]];
      OccursConcat(t, p, UnitBytes(type_, us[0]), UnitBytes(type_, us[1]));
      UnitAtUnitBytes(type_, t, p, us[0]);
      UnitAtUnitBytes(type_, t, p + 2, us[1]);
    }
  }

  lemma {:induction false} ReadTextBytes(type_: UtfType, t: Text, p: nat, cps: seq<nat>)
    requires Scalars(cps) && p <= |t| && t[p..] == TextBytes(type_, cps)
    ensures ReadAll(type_, t, p) == Some(cps)
    decreases |cps|
  {
    hide CharBytes, DecodeAt;
    if cps != [] {
      var a, b := CharBytes(type_, cps[0]), TextBytes(type_, cps[1..]);
      assert Occurs(t, p, a + b);
      OccursConcat(t, p, a, b);
      DecodeCharBytes(type_, t, p, cps[0]);
      assert t[p + |a|..] == t[p..][|a|..] == b;
      ReadTextBytes(type_, t, p + |a|, cps[1..]);
      assert [cps[0]] + cps[1..] == cps;
    }
  }

  /** The first bytes behind the mark, as far as `DetectType` looks. */
  lemma FirstChar(type_: UtfType, cp: nat)
    requires IsScalar(cp)
    ensures |CharBytes(type_, cp)| >= Width(type_)
    ensures type_ == UTF16LE ==> (CharBytes(type_, cp)[0] == 0 && CharBytes(type_, cp)[1] == 0 <==> cp == 0)
  {
    var us := Units(type_, cp);
    CharBytesPair(type_, us[0], if |us| > 1 then us[1] else 0);
    if type_ == UTF8 {
      Utf8Bytes(Encode(cp));
    } else {
      assert us == if |us| == 1 then [us[0]] else [us[0], us[1]];
    }
  }

  /** A text written with a byte-order mark is detected as written exactly when it is
      not UTF-16LE beginning with U+0000, whose mark reads as that of UTF-32LE. */
  lemma DetectWritten(type_: UtfType, cps: seq<nat>, default_: UtfType)
    requires Scalars(cps) && cps != []
    ensures Detect(Written(type_, cps), default_) == Detection(type_, true, |Bom(type_)|)
            <==> !(type_ == UTF16LE && cps[0] == 0)
  {
    hide CharBytes, Detect, TextBytes;
    var t := Written(type_, cps);
    var c := CharBytes(type_, cps[0]);
    FirstChar(type_, cps[0]);
    TextStep(type_, cps);
    var rest := TextBytes(type_, cps[1..]);
    assert t == Bom(type_) + (c + rest);
    BehindMark(type_, t, c, rest);
    if type_ == UTF16LE && c[0] == 0 && c[1] == 0 {
      LongMarkDetected(t, default_);
    } else {
      MarkDetected(type_, t, default_);
    }
  }

  lemma BehindMark(type_: UtfType, t: Text, c: Text, rest: Text)
    requires t == Bom(type_) + (c + rest) && |c| >= Width(type_)
    ensures |t| >= 4 && t[..|Bom(type_)|] == Bom(type_)
    ensures type_ == UTF16LE ==> t[0] == 0xFF && t[1] == 0xFE && t[2] == c[0] && t[3] == c[1]
  {
  }

  /** A mark is detected unless a longer one begins with it. */
  lemma MarkDetected(type_: UtfType, t: Text, default_: UtfType)
    requires |t| >= 4 && |t| >= |Bom(type_)| && t[..|Bom(type_)|] == Bom(type_)
    requires type_ == UTF16LE ==> t[2] != 0 || t[3] != 0
    ensures Detect(t, default_) == Detection(type_, true, |Bom(type_)|)
  {
    hide Mark, Detect, UnitAt;
    assert forall i :: 0 <= i < |Bom(type_)| ==> t[i] == Bom(type_)[i];
    DetectIs(t, default_);
    Marks(t[0], t[1], t[2], t[3]);
    FirstWord(t);
  }

  function WordOf(a: nat, b: nat, c: nat, d: nat): nat {
    a + b * 0x100 + c * 0x10000 + d * 0x1000000
  }

  lemma FirstWord(t: Text)
    requires |t| >= 4
    ensures UnitAt(UTF32LE, t, 0) == WordOf(t[0], t[1], t[2], t[3])
  {
  }

  /** The table of marks, byte by byte. */
  lemma Marks(a: Byte, b: Byte, c: Byte, d: Byte)
    ensures Mark(WordOf(a, b, c, d)) ==
            if a == 0 && b == 0 && c == 0xFE && d == 0xFF then Some(UTF32BE)
            else if a == 0xFF && b == 0xFE && c == 0 && d == 0 then Some(UTF32LE)
            else if a == 0xFE && b == 0xFF then Some(UTF16BE)
            else if a == 0xFF && b == 0xFE then Some(UTF16LE)
            else if a == 0xEF && b == 0xBB && c == 0xBF then Some(UTF8)
            else None
  {
    Word(a, b, c, d);
  }

  lemma LongMarkDetected(t: Text, default_: UtfType)
    requires |t| >= 4 && t[0] == 0xFF && t[1] == 0xFE && t[2] == 0 && t[3] == 0
    ensures Detect(t, default_).type_ == UTF32LE
  {
  }

  /** Writing with a mark and reading back detects the encoding and returns the text. */
  lemma WriteThenRead(type_: UtfType, cps: seq<nat>, default_: UtfType)
    requires Scalars(cps) && cps != []
    requires !(type_ == UTF16LE && cps[0] == 0)
    ensures var t := Written(type_, cps);
            var d := Detect(t, default_);
            d.type_ == type_ && d.hasBom && ReadAll(d.type_, t, d.skipped) == Some(cps)
  {
    DetectWritten(type_, cps, default_);
    var t := Written(type_, cps);
    assert t[|Bom(type_)|..] == TextBytes(type_, cps);
    ReadTextBytes(type_, t, |Bom(type_)|, cps);
  }

  /** The excluded text really is misread. */
  lemma MarkedNulMisread()
    ensures Detect(Written(UTF16LE, [0]), UTF8) == Detection(UTF32LE, true, 4)
  {
    var us := Units(UTF16LE, 0);
    CharBytesPair(UTF16LE, 0, 0);
    assert TextBytes(UTF16LE, [0]) == CharBytes(UTF16LE, 0) + TextBytes(UTF16LE, [0][1..]);
    assert Written(UTF16LE, [0]) == [0xFF, 0xFE, 0, 0];
  }

  /** The code units of UTF-16, section 2.1 of RFC 2781. */
  lemma Utf16Units(type_: UtfType, cp: nat)
    requires IsScalar(cp) && (type_ == UTF16LE || type_ == UTF16BE)
    ensures var us := Units(type_, cp);
            if cp <= 0xFFFF then us == [cp]
            else
              && |us| == 2 && 0xD800 <= us[0] <= 0xDBFF && 0xDC00 <= us[1] <= 0xDFFF
              && (us[0] - 0xD800) * 0x400 + (us[1] - 0xDC00) == cp - 0x10000
  {
  }

  // What is decoded, well-formed or not

  /** The bytes from `p` are those of the unit that they make. */
  lemma UnitStands(type_: UtfType, t: Text, p: nat)
    requires p + Width(type_) <= |t|
    ensures Occurs(t, p, UnitBytes(type_, UnitAt(type_, t, p)))
    ensures UnitAt(type_, t, p) < match type_ case UTF8 => 0x100 case UTF16LE | UTF16BE => 0x10000 case _ => 0x1_0000_0000
  {
    match type_
    case UTF8 => BytesOf(t[p], 0, 0, 0);
    case UTF16LE => BytesOf(t[p], t[p + 1], 0, 0);
    case UTF16BE => BytesOf(t[p + 1], t[p], 0, 0);
    case UTF32LE => BytesOf(t[p], t[p + 1], t[p + 2], t[p + 3]);
    case UTF32BE => BytesOf(t[p + 3], t[p + 2], t[p + 1], t[p]);
  }

  lemma BytesOf(a: Byte, b: Byte, c: Byte, d: Byte)
    ensures var w := a + b * 0x100 + c * 0x10000 + d * 0x1000000;
            w % 0x100 == a && w / 0x100 % 0x100 == b && w / 0x10000 % 0x100 == c && w / 0x1000000 % 0x100 == d
  {
    var w := a + b * 0x100 + c * 0x10000 + d * 0x1000000;
    assert w / 0x100 == b + c * 0x100 + d * 0x10000;
    assert w / 0x10000 == c + d * 0x100;
  }

  lemma PairCombined(u: nat, v: nat)
    requires 0xD800 <= u <= 0xDBFF && 0xDC00 <= v <= 0xDFFF
    ensures var cp := u % 0x400 * 0x400 + v % 0x400 + 0x10000;
            && 0xFFFF < cp <= 0x10FFFF
            && (cp - 0x10000) / 0x400 + 0xD800 == u && (cp - 0x10000) % 0x400 + 0xDC00 == v
  {
    assert u % 0x400 == u - 0xD800 && v % 0x400 == v - 0xDC00;
  }

  /** A text with the zeros that a stream goes on with, as far as one character reaches. */
  function Padded(t: Text): Text {
    t + [0, 0, 0]
  }

  lemma PaddedSame(type_: UtfType, t: Text, p: nat)
    ensures DecodeAt(type_, Padded(t), p) == DecodeAt(type_, t, p)
  {
    hide Masks, Trans, Taken, LeadBits, Shift;
    assert forall i: nat :: At(Padded(t), i) == At(t, i);
  }

  /** A surrogate that stands in UTF-32, which the decoder lets pass. */
  predicate LoneSurrogate(type_: UtfType, t: Text, p: nat, cp: nat) {
    Width(type_) == 4 && 0xD800 <= cp <= 0xDFFF && Occurs(t, p, UnitBytes(type_, cp))
  }

  lemma DecodedStands(type_: UtfType, t: Text, p: nat)
    requires p + 4 <= |t| && DecodeAt(type_, t, p).0
    ensures var cp := DecodeAt(type_, t, p).1;
            (IsScalar(cp) && Occurs(t, p, CharBytes(type_, cp))) || LoneSurrogate(type_, t, p, cp)
  {
    hide Encode, Decoded, Valid, Taken, UnitBytes, UnitAt;
    var (_, cp, n) := DecodeAt(type_, t, p);
    if type_ == UTF8 {
      EncodeDecode(t, p);
      Utf8Bytes(Encode(cp));
    } else {
      var u := UnitAt(type_, t, p);
      UnitStands(type_, t, p);
      if Width(type_) == 2 && n == 4 {
        var v := UnitAt(type_, t, p + 2);
        UnitStands(type_, t, p + 2);
        CharBytesPair(type_, u, v);
        PairCombined(u, v);
        assert Units(type_, cp) == [u, v];
        OccursConcat(t, p, UnitBytes(type_, u), UnitBytes(type_, v));
      } else if IsScalar(cp) {
        CharBytesPair(type_, u, 0);
        assert Units(type_, cp) == [u];
      }
    }
  }

  /** In every encoding, one call gives a code point exactly if the bytes of that scalar
      value stand there, or those of a surrogate in UTF-32; anything else fails. */
  lemma DecodeExactly(type_: UtfType, t: Text, p: nat, cp: nat)
    requires p < |t|
    ensures var (ok, c, _) := DecodeAt(type_, t, p);
            ok && c == cp <==>
            || (IsScalar(cp) && Occurs(Padded(t), p, CharBytes(type_, cp)))
            || LoneSurrogate(type_, Padded(t), p, cp)
  {
    hide DecodeAt, CharBytes, UnitBytes, UnitAt;
    var z := Padded(t);
    PaddedSame(type_, t, p);
    if DecodeAt(type_, z, p).0 { DecodedStands(type_, z, p); }
    if IsScalar(cp) && Occurs(z, p, CharBytes(type_, cp)) { DecodeCharBytes(type_, z, p, cp); }
    if LoneSurrogate(type_, z, p, cp) { SurrogatePasses(type_, z, p, cp); }
  }

  lemma SurrogatePasses(type_: UtfType, t: Text, p: nat, cp: nat)
    requires LoneSurrogate(type_, t, p, cp)
    ensures DecodeAt(type_, t, p) == (true, cp, 4)
  {
    hide UnitBytes, UnitAt;
    UnitAtUnitBytes(type_, t, p, cp);
  }

  // Without a mark

  predicate Ascii(cp: nat) {
    1 <= cp <= 0x7F
  }

  /** How many characters the first four bytes are, when they are ASCII. */
  function Looked(type_: UtfType): nat {
    4 / Width(type_)
  }

  lemma AsciiBytes(type_: UtfType, cp: nat)
    requires Ascii(cp)
    ensures CharBytes(type_, cp) ==
            match type_
            case UTF8 => [cp]
            case UTF16LE => [cp, 0]
            case UTF16BE => [0, cp]
            case UTF32LE => [cp, 0, 0, 0]
            case UTF32BE => [0, 0, 0, cp]
  {
    CharBytesPair(type_, cp, 0);
    if type_ == UTF8 { Utf8Bytes(Encode(cp)); }
  }

  lemma TextStep(type_: UtfType, cps: seq<nat>)
    requires Scalars(cps) && cps != []
    ensures TextBytes(type_, cps) == CharBytes(type_, cps[0]) + TextBytes(type_, cps[1..])
  {
  }

  /** The first four bytes of an unmarked text that begins in ASCII. */
  lemma FirstFour(type_: UtfType, cps: seq<nat>)
    requires Scalars(cps) && |cps| >= Looked(type_) && forall i :: 0 <= i < Looked(type_) ==> Ascii(cps[i])
    ensures |TextBytes(type_, cps)| >= 4
    ensures TextBytes(type_, cps)[..4] ==
            match type_
            case UTF8 => [cps[0], cps[1], cps[2], cps[3]]
            case UTF16LE => [cps[0], 0, cps[1], 0]
            case UTF16BE => [0, cps[0], 0, cps[1]]
            case UTF32LE => [cps[0], 0, 0, 0]
            case UTF32BE => [0, 0, 0, cps[0]]
  {
    hide CharBytes, TextBytes;
    TextStep(type_, cps);
    AsciiBytes(type_, cps[0]);
    if Looked(type_) > 1 {
      TextStep(type_, cps[1..]);
      AsciiBytes(type_, cps[1]);
      if Looked(type_) > 2 {
        TextStep(type_, cps[1..][1..]);
        TextStep(type_, cps[1..][1..][1..]);
        AsciiBytes(type_, cps[2]);
        AsciiBytes(type_, cps[3]);
      }
    }
  }

  /** A text without a mark that begins in ASCII is detected in every encoding, whatever
      the caller's default, and read back. */
  lemma UnmarkedRead(type_: UtfType, cps: seq<nat>, default_: UtfType)
    requires Scalars(cps) && |cps| >= Looked(type_) && forall i :: 0 <= i < Looked(type_) ==> Ascii(cps[i])
    ensures var t := TextBytes(type_, cps);
            Detect(t, default_) == Detection(type_, false, 0) && ReadAll(type_, t, 0) == Some(cps)
  {
    hide TextBytes, ReadAll, Looked, Detect;
    var t := TextBytes(type_, cps);
    FirstFour(type_, cps);
    AsciiLooked(type_);
    AsciiDetected(type_, t, default_);
    assert t[0..] == t;
    ReadTextBytes(type_, t, 0, cps);
  }

  lemma AsciiDetected(type_: UtfType, t: Text, default_: UtfType)
    requires |t| >= 4
    requires var w := t[..4];
             match type_
             case UTF8 => Ascii(w[0]) && Ascii(w[1]) && Ascii(w[2]) && Ascii(w[3])
             case UTF16LE => Ascii(w[0]) && w[1] == 0 && Ascii(w[2]) && w[3] == 0
             case UTF16BE => w[0] == 0 && Ascii(w[1]) && w[2] == 0 && Ascii(w[3])
             case UTF32LE => Ascii(w[0]) && w[1] == w[2] == w[3] == 0
             case UTF32BE => w[0] == w[1] == w[2] == 0 && Ascii(w[3])
    ensures Detect(t, default_) == Detection(type_, false, 0)
  {
    hide Detect, Mark, UnitAt;
    var w := t[..4];
    assert t[0] == w[0] && t[1] == w[1] && t[2] == w[2] && t[3] == w[3];
    DetectIs(t, default_);
    Marked(t);
  }

  lemma AsciiLooked(type_: UtfType)
    ensures Looked(type_) == match type_ case UTF8 => 4 case UTF16LE | UTF16BE => 2 case _ => 1
  {
  }

  /** The places of the null bytes among the first four. */
  function Nulls(t: Text): set<nat>
    requires |t| >= 4
  {
    set i: nat | i < 4 && t[i] == 0
  }

  lemma NullAt(t: Text, i: nat)
    requires |t| >= 4 && i < 4
    ensures i in Nulls(t) <==> t[i] == 0
  {
  }

  /** The caller's default is kept exactly when there are less than four bytes, or no
      mark and none of the patterns of section 3 of RFC 4627. */
  lemma DefaultKept(t: Text)
    ensures (forall d :: Detect(t, d) == Detection(d, false, 0)) <==>
            || |t| < 4
            || (&& (forall type_ :: !(Bom(type_) <= t))
                && Nulls(t) !in {{0, 1, 2}, {0, 2}, {1, 2, 3}, {1, 3}, {}})
  {
    hide Detect, Nulls, Mark, ByNulls, UnitAt;
    if |t| >= 4 {
      Marked(t);
      NullPattern(t);
      DetectIs(t, UTF8);
      DetectIs(t, UTF16LE);
      forall d ensures Detect(t, d) == (match Mark(UnitAt(UTF32LE, t, 0))
                                        case Some(m) => Detection(m, true, |Bom(m)|)
                                        case None => Detection(ByNulls(t, d), false, 0))
      {
        DetectIs(t, d);
      }
    } else {
      forall d ensures Detect(t, d) == Detection(d, false, 0) { Short(t, d); }
    }
  }

  lemma Short(t: Text, d: UtfType)
    requires |t| < 4
    ensures Detect(t, d) == Detection(d, false, 0)
  {
  }

  lemma DetectIs(t: Text, d: UtfType)
    requires |t| >= 4
    ensures Detect(t, d) == match Mark(UnitAt(UTF32LE, t, 0))
                            case Some(m) => Detection(m, true, |Bom(m)|)
                            case None => Detection(ByNulls(t, d), false, 0)
  {
  }

  lemma Marked(t: Text)
    requires |t| >= 4
    ensures Mark(UnitAt(UTF32LE, t, 0)).Some? <==> exists type_ :: Bom(type_) <= t
    ensures Mark(UnitAt(UTF32LE, t, 0)).Some? ==> t[0] >= 0xEF || t[2] >= 0xFE
  {
    assert Bom(UTF8) <= t <==> t[0] == 0xEF && t[1] == 0xBB && t[2] == 0xBF;
    assert Bom(UTF16LE) <= t <==> t[0] == 0xFF && t[1] == 0xFE;
    assert Bom(UTF16BE) <= t <==> t[0] == 0xFE && t[1] == 0xFF;
    assert Bom(UTF32LE) <= t <==> t[0] == 0xFF && t[1] == 0xFE && t[2] == 0 && t[3] == 0;
    assert Bom(UTF32BE) <= t <==> t[0] == 0 && t[1] == 0 && t[2] == 0xFE && t[3] == 0xFF;
    Word(t[0], t[1], t[2], t[3]);
  }

  lemma Word(a: Byte, b: Byte, c: Byte, d: Byte)
    ensures var w := a + b * 0x100 + c * 0x10000 + d * 0x1000000;
            && w % 0x10000 == a + b * 0x100 && w % 0x1000000 == a + b * 0x100 + c * 0x10000
            && (w == 0xFFFE0000 <==> a == 0 && b == 0 && c == 0xFE && d == 0xFF)
            && (w == 0x0000FEFF <==> a == 0xFF && b == 0xFE && c == 0 && d == 0)
  {
  }

  lemma NullPattern(t: Text)
    requires |t| >= 4
    ensures (forall d :: ByNulls(t, d) == d) <==> Nulls(t) !in {{0, 1, 2}, {0, 2}, {1, 2, 3}, {1, 3}, {}}
    ensures (exists d :: ByNulls(t, d) != d) <==> ByNulls(t, UTF8) != UTF8 || ByNulls(t, UTF16LE) != UTF16LE
  {
    hide Nulls;
    NullAt(t, 0);
    NullAt(t, 1);
    NullAt(t, 2);
    NullAt(t, 3);
    assert forall i :: i in Nulls(t) ==> i < 4 by { NullsBelow(t); }
    if t[0] == 0 && t[1] == 0 && t[2] == 0 && t[3] != 0 { assert Nulls(t) == {0, 1, 2}; }
    if t[0] == 0 && t[1] != 0 && t[2] == 0 && t[3] != 0 { assert Nulls(t) == {0, 2}; }
    if t[0] != 0 && t[1] == 0 && t[2] == 0 && t[3] == 0 { assert Nulls(t) == {1, 2, 3}; }
    if t[0] != 0 && t[1] == 0 && t[2] != 0 && t[3] == 0 { assert Nulls(t) == {1, 3}; }
    if t[0] != 0 && t[1] != 0 && t[2] != 0 && t[3] != 0 { assert Nulls(t) == {}; }
    assert ByNulls(t, UTF8) == UTF8 && ByNulls(t, UTF16LE) == UTF16LE ==>
        Nulls(t) !in {{0, 1, 2}, {0, 2}, {1, 2, 3}, {1, 3}, {}};
  }

  lemma NullsBelow(t: Text)
    requires |t| >= 4
    ensures forall i :: i in Nulls(t) ==> i < 4
  {
  }
}
