/** `AutoUTFInputStream`, `AutoUTFOutputStream` (encodedstream.h) and `AutoUTF`
    (encodings.h) over file streams. */
module AutoUtfStreams {
  import opened Bytes
  import opened AutoUtf
  import opened FileStreams
  import Utf8

  class AutoUTFOutputStream {
    const os: FileWriteStream
    const type_: UtfType

    ghost predicate Valid()
      reads this, os
    {
      os.Valid()
    }

    /** Everything that has been put, whether it has been flushed or not. */
    ghost function Bytes(): Text
      reads this, os, os.buffer
      requires Valid()
    {
      os.State().file + os.State().pending
    }

    constructor (os: FileWriteStream, type_: UtfType, putBOM: bool)
      requires os.Valid()
      modifies os, os.buffer
      ensures Valid() && this.os == os && this.type_ == type_
      ensures Bytes() == old(os.State().file + os.State().pending) + (if putBOM then Bom(type_) else [])
    {
      this.os, this.type_ := os, type_;
      new;
      if putBOM { PutBytes(Bom(type_)); }
    }

    method PutBytes(s: Text)
      requires Valid()
      modifies os, os.buffer
      ensures Valid() && Bytes() == old(Bytes()) + s
    {
      for i := 0 to |s|
        invariant Valid() && Bytes() == old(Bytes()) + s[..i]
      {
        OneKept(os.State(), os.buffer.Length, s[i]);
        os.Put(s[i]);
        assert s[..i + 1] == s[..i] + [s[i]];
      }
    }

    /** One code unit, as `Put` of the encoding writes it. */
    method Put(c: nat)
      requires Valid()
      modifies os, os.buffer
      ensures Valid() && Bytes() == old(Bytes()) + UnitBytes(type_, c)
    {
      PutBytes(UnitBytes(type_, c));
    }

    /** A surrogate pair. */
    method PutPair(hi: nat, lo: nat)
      requires Valid()
      modifies os, os.buffer
      ensures Valid() && Bytes() == old(Bytes()) + UnitsBytes(type_, [hi, lo])
    {
      hide UnitBytes, Bytes;
      ghost var b := Bytes();
      Put(hi);
      Put(lo);
      CharBytesPair(type_, hi, lo);
      assert b + UnitBytes(type_, hi) + UnitBytes(type_, lo) == b + (UnitBytes(type_, hi) + UnitBytes(type_, lo));
    }

    /** `AutoUTF::Encode`. */
    method Encode(codepoint: nat)
      requires Valid() && Utf8.IsScalar(codepoint)
      modifies os, os.buffer
      ensures Valid() && Bytes() == old(Bytes()) + CharBytes(type_, codepoint)
    {
      hide Utf8.Encode, UnitBytes, UnitsBytes, Bytes;
      match type_
      case UTF8 => EncodeUtf8(codepoint);
      case UTF16LE | UTF16BE =>
        if codepoint <= 0xFFFF {
          assert codepoint < 0xD800 || codepoint > 0xDFFF;
          Put(codepoint);
          CharBytesPair(type_, codepoint, 0);
        } else {
          var v := codepoint - 0x10000;
          PutPair(v / 0x400 + 0xD800, v % 0x400 + 0xDC00);
        }
      case UTF32LE | UTF32BE =>
        Put(codepoint);
        CharBytesPair(type_, codepoint, 0);
    }

    /** `UTF8::Encode`. */
    method EncodeUtf8(codepoint: nat)
      requires Valid() && Utf8.IsScalar(codepoint) && type_ == UTF8
      modifies os, os.buffer
      ensures Valid() && Bytes() == old(Bytes()) + CharBytes(UTF8, codepoint)
    {
      Utf8Bytes(Utf8.Encode(codepoint));
      if codepoint <= 0x7F {
        PutBytes([codepoint]);
      } else if codepoint <= 0x7FF {
        PutBytes([0xC0 + codepoint / 0x40, 0x80 + codepoint % 0x40]);
      } else if codepoint <= 0xFFFF {
        PutBytes([0xE0 + codepoint / 0x1000, 0x80 + codepoint / 0x40 % 0x40, 0x80 + codepoint % 0x40]);
      } else {
        assert codepoint <= 0x10FFFF;
        PutBytes([0xF0 + codepoint / 0x40000, 0x80 + codepoint / 0x1000 % 0x40,
                  0x80 + codepoint / 0x40 % 0x40, 0x80 + codepoint % 0x40]);
      }
    }
  }

  class AutoUTFInputStream {
    const is_: FileReadStream
    var type_: UtfType
    var hasBOM: bool
    var current: nat
    /** Where the current code unit stands in the file. */
    ghost var pos: nat

    ghost predicate Valid()
      reads this, is_, is_.buffer
    {
      is_.Valid() && Stands(pos + Width(type_)) && current == UnitAt(type_, is_.file, pos)
    }

    /** The byte stream stands at `q`, or at the end of the file if that is nearer. */
    ghost predicate Stands(q: nat)
      reads this, is_
    {
      is_.Tell() == if q < |is_.file| then q else |is_.file|
    }

    /** Detects the encoding and takes the first code unit. With less than five bytes of
        buffer, or four of file, there is no detection. */
    constructor (is_: FileReadStream, type_: UtfType)
      requires is_.Valid() && is_.Tell() == 0
      modifies is_, is_.buffer
      ensures Valid() && this.is_ == is_
      ensures var d := Detected(is_.file, type_, is_.buffer.Length);
              this.type_ == d.type_ && hasBOM == d.hasBom && pos == d.skipped
    {
      this.is_, this.type_, hasBOM, current, pos := is_, type_, false, 0, 0;
      new;
      DetectType();
      current := TakeUnit(pos);
    }

    method Skip(n: nat)
      requires is_.Valid() && Stands(pos)
      modifies is_, is_.buffer, this`pos
      ensures is_.Valid() && Stands(pos) && pos == old(pos) + n
    {
      for i := 0 to n
        invariant is_.Valid() && Stands(pos) && pos == old(pos) + i
      {
        var _ := is_.Take();
        pos := pos + 1;
      }
    }

    method DetectType()
      requires is_.Valid() && is_.Tell() == 0 && pos == 0 && !hasBOM
      modifies this, is_, is_.buffer
      ensures is_.Valid() && Stands(pos)
      ensures var d := Detected(is_.file, old(type_), is_.buffer.Length);
              type_ == d.type_ && hasBOM == d.hasBom && pos == d.skipped
    {
      hide Mark, ByNulls, UnitAt;
      var four := is_.Peek4();
      if four.None? { return; }
      var c := four.value;
      SameFour(is_.file, c, type_);
      DetectByMark(UnitAt(UTF32LE, c, 0));
      if !hasBOM { DetectByNulls(c); }
    }

    /** The byte-order marks, the longer ones first. */
    method DetectByMark(bom: nat)
      requires is_.Valid() && Stands(pos) && pos == 0 && !hasBOM
      modifies this, is_, is_.buffer
      ensures is_.Valid() && Stands(pos) && hasBOM == Mark(bom).Some?
      ensures match Mark(bom)
              case Some(found) => type_ == found && pos == |Bom(found)|
              case None => type_ == old(type_) && pos == 0
    {
      if bom == 0xFFFE0000 {
        type_, hasBOM := UTF32BE, true;
        Skip(4);
      } else if bom == 0x0000FEFF {
        type_, hasBOM := UTF32LE, true;
        Skip(4);
      } else if bom % 0x10000 == 0xFFFE {
        type_, hasBOM := UTF16BE, true;
        Skip(2);
      } else if bom % 0x10000 == 0xFEFF {
        type_, hasBOM := UTF16LE, true;
        Skip(2);
      } else if bom % 0x1000000 == 0xBFBBEF {
        type_, hasBOM := UTF8, true;
        Skip(3);
      }
    }

    /** The pattern of null bytes among the first four, as RFC 4627 tells the encodings
        apart. */
    method DetectByNulls(c: Text)
      requires |c| == 4
      modifies this`type_
      ensures type_ == ByNulls(c, old(type_))
    {
      var pattern: int := (if c[0] != 0 then 1 else 0) + (if c[1] != 0 then 2 else 0)
                          + (if c[2] != 0 then 4 else 0) + (if c[3] != 0 then 8 else 0);
      match pattern
      case 0x08 => type_ := UTF32BE;
      case 0x0A => type_ := UTF16BE;
      case 0x01 => type_ := UTF32LE;
      case 0x05 => type_ := UTF16LE;
      case 0x0F => type_ := UTF8;
      case _ =>
    }

    /** `Take` of the encoding: the code unit in the bytes from `q`. */
    method TakeUnit(ghost q: nat) returns (c: nat)
      requires is_.Valid() && Stands(q)
      modifies is_, is_.buffer
      ensures is_.Valid() && Stands(q + Width(type_)) && c == UnitAt(type_, is_.file, q)
    {
      var bytes := TakeBytes(Width(type_), q);
      c := UnitAt(type_, bytes, 0);
    }

    method TakeBytes(n: nat, ghost q: nat) returns (s: Text)
      requires is_.Valid() && Stands(q)
      modifies is_, is_.buffer
      ensures is_.Valid() && Stands(q + n) && |s| == n && forall i :: 0 <= i < n ==> s[i] == At(is_.file, q + i)
    {
      s := [];
      for i := 0 to n
        invariant is_.Valid() && Stands(q + i) && |s| == i && forall j :: 0 <= j < i ==> s[j] == At(is_.file, q + j)
      {
        var b := is_.Take();
        s := s + [b];
      }
    }

    method Take() returns (c: nat)
      requires Valid()
      modifies this`current, this`pos, is_, is_.buffer
      ensures Valid() && c == UnitAt(type_, is_.file, old(pos)) && pos == old(pos) + Width(type_)
    {
      c := current;
      current := TakeUnit(pos + Width(type_));
      pos := pos + Width(type_);
    }

    /** `AutoUTF::Decode`. */
    method Decode() returns (ok: bool, codepoint: nat)
      requires Valid()
      modifies this`current, this`pos, is_, is_.buffer
      ensures Valid()
      ensures var d := DecodeAt(type_, is_.file, old(pos));
              ok == d.0 && (ok ==> codepoint == d.1) && pos == old(pos) + d.2
    {
      hide UnitAt, Utf8.Valid, Utf8.Taken, Utf8.Decoded;
      match type_
      case UTF8 => ok, codepoint := DecodeUtf8();
      case UTF16LE | UTF16BE =>
        var c := Take();
        if c < 0xD800 || c > 0xDFFF { return true, c; }
        if c > 0xDBFF { return false, 0; }
        codepoint := c % 0x400 * 0x400;
        c := Take();
        codepoint := codepoint + c % 0x400 + 0x10000;
        ok := 0xDC00 <= c <= 0xDFFF;
      case UTF32LE | UTF32BE =>
        codepoint := Take();
        ok := codepoint <= 0x10FFFF;
    }

    method DecodeUtf8() returns (ok: bool, codepoint: nat)
      requires Valid() && type_ == UTF8
      modifies this`current, this`pos, is_, is_.buffer
      ensures Valid() && ok == Utf8.Valid(is_.file, old(pos)) && (ok ==> codepoint == Utf8.Decoded(is_.file, old(pos)))
      ensures pos == old(pos) + Utf8.Taken(At(is_.file, old(pos)))
    {
      hide Utf8.Valid, Utf8.Taken, Utf8.Masks, Utf8.Trans, Utf8.Decoded, Utf8.LeadBits, Utf8.Shift;
      ghost var p := pos;
      var c := Take();
      Utf8.LeadCases(is_.file, p);
      if c < 0x80 { return true, c; }
      var masks := Utf8.Masks(c);
      if masks.None? { return false, 0; }
      var m := masks.value;
      codepoint := Utf8.LeadBits(c);
      ok := true;
      for k := 0 to |m|
        invariant Valid() && pos == p + 1 + k
        invariant ok <==> forall j :: 0 <= j < k ==> Utf8.Trans(At(is_.file, p + 1 + j), m[j])
        invariant codepoint == Utf8.Shifted(is_.file, p, k)
      {
        c := Take();
        assert Utf8.Shifted(is_.file, p, k + 1) == Utf8.Shift(Utf8.Shifted(is_.file, p, k), At(is_.file, p + (k + 1)));
        codepoint := Utf8.Shift(codepoint, c);
        ok := ok && Utf8.Trans(c, m[k]);
      }
    }
  }

  /** Detection looks at the first four bytes only. */
  lemma SameFour(t: Text, c: Text, default_: UtfType)
    requires |t| >= 4 && c == t[..4]
    ensures UnitAt(UTF32LE, t, 0) == UnitAt(UTF32LE, c, 0) && ByNulls(t, default_) == ByNulls(c, default_)
  {
  }

  /** A file written with a byte-order mark, through a buffer of any size. */
  method WriteText(type_: UtfType, cps: seq<nat>, buffer: array<Byte>) returns (file: Text)
    requires Utf8.Scalars(cps) && buffer.Length > 0
    modifies buffer
    ensures file == Written(type_, cps)
  {
    hide CharBytes, PutOne, Bom, TextBytes;
    var os := new FileWriteStream(buffer);
    var output := new AutoUTFOutputStream(os, type_, true);
    assert cps[0..] == cps;
    for i := 0 to |cps|
      invariant fresh(os) && os.buffer == buffer && output.os == os && output.type_ == type_ && output.Valid()
      invariant output.Bytes() + TextBytes(type_, cps[i..]) == Written(type_, cps)
    {
      TextStep(type_, cps, i);
      ghost var before := output.Bytes();
      output.Encode(cps[i]);
      assert before + CharBytes(type_, cps[i]) + TextBytes(type_, cps[i + 1..])
          == before + (CharBytes(type_, cps[i]) + TextBytes(type_, cps[i + 1..]));
    }
    TextEnd(type_, cps);
    assert output.Bytes() + [] == output.Bytes();
    os.Flush();
    file := os.file;
    assert file == os.State().file + os.State().pending;
  }

  lemma TextStep(type_: UtfType, cps: seq<nat>, i: nat)
    requires Utf8.Scalars(cps) && i < |cps|
    ensures TextBytes(type_, cps[i..]) == CharBytes(type_, cps[i]) + TextBytes(type_, cps[i + 1..])
  {
    assert cps[i..][1..] == cps[i + 1..];
  }

  lemma TextEnd(type_: UtfType, cps: seq<nat>)
    requires Utf8.Scalars(cps)
    ensures TextBytes(type_, cps[|cps|..]) == []
  {
  }

  /** What `n` calls of `Decode` give, up to the first that fails. */
  function ReadN(type_: UtfType, t: Text, p: nat, n: nat): seq<nat>
    decreases n
  {
    if n == 0 then []
    else
      var (ok, cp, taken) := DecodeAt(type_, t, p);
      if !ok then [] else [cp] + ReadN(type_, t, p + taken, n - 1)
  }

  /** What is detected through a buffer of this size. */
  function Detected(t: Text, default_: UtfType, size: nat): Detection {
    if size >= 5 then Detect(t, default_) else Detection(default_, false, 0)
  }

  /** `n` code points of a file, with the encoding that was detected. */
  method ReadText(file: Text, default_: UtfType, buffer: array<Byte>, n: nat)
      returns (detected: UtfType, result: seq<nat>)
    requires buffer.Length >= 4
    modifies buffer
    ensures var d := Detected(file, default_, buffer.Length);
            detected == d.type_ && result == ReadN(d.type_, file, d.skipped, n)
  {
    hide Detect, ReadN, UnitAt;
    var stream := new FileReadStream(file, buffer);
    var input := new AutoUTFInputStream(stream, default_);
    detected := input.type_;
    result := ReadChars(input, n);
  }

  method ReadChars(input: AutoUTFInputStream, n: nat) returns (result: seq<nat>)
    requires input.Valid()
    modifies input, input.is_, input.is_.buffer
    ensures result == ReadN(input.type_, input.is_.file, old(input.pos), n)
    ensures input.type_ == old(input.type_)
  {
    hide DecodeAt, UnitAt, ReadN, AutoUTFInputStream.Valid;
    ghost var t, type_, p := input.is_.file, input.type_, input.pos;
    result := [];
    assert [] + ReadN(type_, t, p, n) == ReadN(type_, t, p, n);
    var ok := true;
    while ok && |result| < n
      invariant input.Valid() && input.type_ == type_ && |result| <= n
      invariant ReadN(type_, t, p, n) == if ok then result + ReadN(type_, t, input.pos, n - |result|) else result
      decreases n - |result|, ok
    {
      ReadStep(type_, t, input.pos, n - |result|, result);
      var codepoint;
      ok, codepoint := input.Decode();
      if ok { result := result + [codepoint]; }
    }
    ReadEnd(type_, t, input.pos, result);
  }

  lemma ReadStep(type_: UtfType, t: Text, p: nat, n: nat, before: seq<nat>)
    requires n > 0
    ensures var d := DecodeAt(type_, t, p);
            before + ReadN(type_, t, p, n) == if d.0 then before + [d.1] + ReadN(type_, t, p + d.2, n - 1) else before
  {
    hide DecodeAt;
    var d := DecodeAt(type_, t, p);
    if d.0 {
      var rest := ReadN(type_, t, p + d.2, n - 1);
      assert before + ([d.1] + rest) == before + [d.1] + rest;
    }
  }

  lemma ReadEnd(type_: UtfType, t: Text, p: nat, before: seq<nat>)
    ensures before + ReadN(type_, t, p, 0) == before
  {
  }

  /** Writing a text with a mark to a file and reading as many code points back, with
      buffers of any size: the encoding is detected and the text returned, except
      through the smallest reading buffer. There nothing is detected, and where the
      default is right the text comes back behind its mark. */
  method WriteAndRead(type_: UtfType, cps: seq<nat>, default_: UtfType,
                      writeBuffer: array<Byte>, readBuffer: array<Byte>)
      returns (detected: UtfType, result: seq<nat>)
    requires Utf8.Scalars(cps) && cps != []
    requires writeBuffer.Length > 0 && readBuffer.Length >= 4
    modifies writeBuffer, readBuffer
    ensures readBuffer.Length >= 5 && !(type_ == UTF16LE && cps[0] == 0) ==> detected == type_ && result == cps
    ensures readBuffer.Length == 4 ==> detected == default_
    ensures readBuffer.Length == 4 && default_ == type_ ==> result == ([0xFEFF] + cps)[..|cps|]
  {
    hide Detect, TextBytes, ReadN, Written, Bom;
    var file := WriteText(type_, cps, writeBuffer);
    DetectWritten(type_, cps, default_);
    WrittenBehindMark(type_, cps);
    ReadsText(type_, file, |Bom(type_)|, cps, |cps|);
    MarkIsChar(type_, cps);
    ReadsText(type_, file, 0, [0xFEFF] + cps, |cps|);
    assert cps[..|cps|] == cps;
    detected, result := ReadText(file, default_, readBuffer, |cps|);
  }

  lemma WrittenBehindMark(type_: UtfType, cps: seq<nat>)
    requires Utf8.Scalars(cps)
    ensures var t := Written(type_, cps);
            |Bom(type_)| <= |t| && t[|Bom(type_)|..] == TextBytes(type_, cps)
  {
  }

  /** The mark is the character U+FEFF. */
  lemma MarkIsChar(type_: UtfType, cps: seq<nat>)
    requires Utf8.Scalars(cps)
    ensures Written(type_, cps)[0..] == TextBytes(type_, [0xFEFF] + cps)
  {
    hide Utf8.Encode;
    assert Utf8.Encode(0xFEFF) == [0xEF, 0xBB, 0xBF] by { EncodedMark(); }
    CharBytesPair(type_, 0xFEFF, 0);
    Utf8Bytes(Utf8.Encode(0xFEFF));
    assert ([0xFEFF] + cps)[1..] == cps;
  }

  lemma EncodedMark()
    ensures Utf8.Encode(0xFEFF) == [0xEF, 0xBB, 0xBF]
  {
  }

  lemma {:induction false} ReadsText(type_: UtfType, t: Text, p: nat, cps: seq<nat>, n: nat)
    requires Utf8.Scalars(cps) && p <= |t| && t[p..] == TextBytes(type_, cps) && n <= |cps|
    ensures ReadN(type_, t, p, n) == cps[..n]
    decreases n
  {
    hide CharBytes, DecodeAt;
    if n > 0 {
      assert cps[0..] == cps;
      NextChar(type_, t, p, cps, 0);
      var d := DecodeAt(type_, t, p);
      ReadsText(type_, t, p + d.2, cps[1..], n - 1);
      assert cps[..n] == [cps[0]] + cps[1..][..n - 1];
    }
  }

  lemma NextChar(type_: UtfType, t: Text, p: nat, cps: seq<nat>, i: nat)
    requires Utf8.Scalars(cps) && i < |cps| && p <= |t| && t[p..] == TextBytes(type_, cps[i..])
    ensures var d := DecodeAt(type_, t, p);
            d.0 && d.1 == cps[i] && p + d.2 <= |t| && t[p + d.2..] == TextBytes(type_, cps[i + 1..])
  {
    hide CharBytes, DecodeAt;
    var a, b := CharBytes(type_, cps[i]), TextBytes(type_, cps[i + 1..]);
    assert cps[i..][1..] == cps[i + 1..];
    assert t[p..] == a + b;
    assert Occurs(t, p, a + b);
    OccursConcat(t, p, a, b);
    DecodeCharBytes(type_, t, p, cps[i]);
    assert t[p + |a|..] == t[p..][|a|..] == b;
  }
}
