/** The number lexer and the grammar of numbers, and the literal names. */
module Numerals {
  import opened Bytes
  import opened Sax
  import opened Lexer
  import opened Grammar
  import opened Leaves

  /** The lexer's digits, numbers and event choice are those of the grammar. */
  lemma DigitsAre(s: Text)
    ensures Digits(s) <==> AllDigits(s)
  {
  }

  lemma {:induction false} ValueSnoc(s: Text, c: Byte)
    requires Digits(s) && Digit(c)
    ensures Digits(s + [c]) && ValueOf(s + [c]) == ValueOf(s) * 10 + (c - 0x30)
    decreases |s|
  {
    if s == [] {
      assert [] + [c] == [c] && [c][1..] == [];
    } else {
      var z := s + [c];
      ValueSnoc(s[1..], c);
      assert z[1..] == s[1..] + [c];
      Tenfold(s[0] - 0x30, PowerOfTen(|s| - 1));
    }
  }

  lemma Tenfold(d: nat, p: nat)
    ensures d * (10 * p) == d * p * 10
  {
  }

  lemma {:induction false} ValueIs(s: Text)
    requires Digits(s)
    ensures AllDigits(s) && ValueOf(s) == Decimal(s)
    decreases |s|
  {
    if s != [] {
      var n := |s| - 1;
      ValueIs(s[..n]);
      ValueSnoc(s[..n], s[n]);
      assert s == s[..n] + [s[n]];
    }
  }

  lemma IntegerEventIs(minus: bool, value: nat)
    ensures ExactEvent(minus, value) ==
            if Fits64(minus, value) then Some(Lexer.IntegerEvent(minus, value)) else None
  {
  }

  lemma {:induction false} DigitsEndAt(t: Text, p: nat, s: Text)
    requires AllDigits(s) && Occurs(t, p, s) && !IsDigit(At(t, p + |s|))
    ensures DigitsEnd(t, p) == p + |s|
    decreases |s|
  {
    if s != [] {
      assert s == [s[0]] + s[1..];
      OccursFirst(t, p, s[0], s[1..]);
      DigitsEndAt(t, p + 1, s[1..]);
    }
  }

  lemma OccursSlice(t: Text, p: nat, s: Text)
    requires Occurs(t, p, s)
    ensures t[p..p + |s|] == s
  {
  }

  lemma SliceDigits(t: Text, p: nat, q: nat)
    requires p <= q <= |t| && forall i :: p <= i < q ==> IsDigit(At(t, i))
    ensures AllDigits(t[p..q])
  {
    assert forall i :: 0 <= i < q - p ==> t[p..q][i] == At(t, p + i);
  }

  // The numeral whose text begins at a position

  function AfterSign(t: Text, p: nat): (q: nat)
    ensures p <= q && (p <= |t| ==> q <= |t|)
  {
    if At(t, p) == MINUS then p + 1 else p
  }

  function FractionAt(t: Text, p: nat): Option<Text>
    requires p <= |t|
  {
    if At(t, p) == DOT then Some(t[p + 1..DigitsEnd(t, p + 1)]) else None
  }

  function FractionEnd(t: Text, p: nat): (q: nat)
    requires p <= |t|
    ensures p <= q <= |t|
  {
    if At(t, p) == DOT then DigitsEnd(t, p + 1) else p
  }

  function PowerAt(t: Text, p: nat): Option<Power>
    requires p <= |t|
  {
    if At(t, p) == 0x65 || At(t, p) == 0x45 then
      var k := if At(t, p + 1) == 0x2B || At(t, p + 1) == MINUS then p + 2 else p + 1;
      Some(Power(t[p], t[p + 1..k], t[k..DigitsEnd(t, k)]))
    else None
  }

  function WholeEnd(t: Text, q: nat): (r: nat)
    requires q <= |t|
    ensures q <= r <= |t|
  {
    if IsDigit(At(t, q)) then IntegerEnd(t, q)
    else match NanOrInf(t, q)
      case ScanOk(r) => r
      case ScanBad(_) => q
  }

  function NumeralAt(t: Text, p: nat): Numeral
    requires p <= |t|
  {
    var q := AfterSign(t, p);
    var r := WholeEnd(t, q);
    Numeral(At(t, p) == MINUS, t[q..r], FractionAt(t, r), PowerAt(t, FractionEnd(t, r)))
  }

  // From the grammar to the lexer

  lemma WholeRead(t: Text, q: nat, whole: Text)
    requires IsWhole(whole) && Occurs(t, q, whole) && (IsDigit(At(t, q + |whole|)) ==> whole == [0x30])
    ensures IntegerEnd(t, q) == WholeEnd(t, q) == q + |whole| && t[q..q + |whole|] == whole
    ensures IsDigit(At(t, q))
  {
    hide NanOrInf;
    OccursAt(t, q, whole, 0);
    if whole[0] != 0x30 {
      DigitsEndAt(t, q, whole);
    }
  }

  lemma MatchedThree(t: Text, p: nat, a: Byte, b: Byte, c: Byte)
    ensures Matched(t, p, [a, b, c]) ==
            if At(t, p) != a then 0 else if At(t, p + 1) != b then 1 else if At(t, p + 2) != c then 2 else 3
  {
    assert [a, b, c][1..] == [b, c] && [b, c][1..] == [c] && [c][1..] == [];
    assert Matched(t, p + 3, []) == 0;
    assert Matched(t, p + 2, [c]) == if At(t, p + 2) != c then 0 else 1;
    assert Matched(t, p + 1, [b, c]) == if At(t, p + 1) != b then 0 else 1 + Matched(t, p + 2, [c]);
  }

  lemma SpecialScanned(t: Text, q: nat)
    ensures var k := Matched(t, q, NAN_NAME);
            && (k == 3 ==> NanOrInf(t, q) == ScanOk(q + 3))
            && (k < 3 && Matched(t, q + k, INF_NAME) == 3 ==>
                  && (At(t, q + k + 3) != LOWER_I ==> NanOrInf(t, q) == ScanOk(q + k + 3))
                  && (At(t, q + k + 3) == LOWER_I && Matched(t, q + k + 3, INITY_NAME) == 5 ==>
                        NanOrInf(t, q) == ScanOk(q + k + 8)))
  {
    hide Matched;
  }

  /** The lexer reads the names that the grammar has for NaN and Infinity. */
  lemma SpecialRead(t: Text, q: nat, whole: Text)
    requires IsSpecial(whole) && Occurs(t, q, whole)
    requires EndsInInf(whole) ==> At(t, q + |whole|) != LOWER_I
    ensures NanOrInf(t, q) == ScanOk(q + |whole|) && WholeEnd(t, q) == q + |whole|
    ensures At(t, q) == UPPER_I || At(t, q) == UPPER_N
  {
    hide Occurs, Matched, NanOrInf, EndsInInf;
    SpecialScanned(t, q);
    if whole == NAN {
      MatchedThree(t, q, 0x4E, 0x61, 0x4E);
      OccursAt(t, q, whole, 0);
      OccursAt(t, q, whole, 1);
      OccursAt(t, q, whole, 2);
    } else {
      var k :| 0 <= k <= 2 && (whole == NAN[..k] + INF || whole == NAN[..k] + (INF + INITY));
      var rest := if whole == NAN[..k] + INF then [] else INITY;
      InfinityParts(whole, k, rest);
      InfinityRead(t, q, k, rest);
    }
  }

  lemma InfinityParts(whole: Text, k: nat, rest: Text)
    requires k <= 2 && rest == (if whole == NAN[..k] + INF then [] else INITY)
    requires whole == NAN[..k] + INF || whole == NAN[..k] + (INF + INITY)
    ensures whole == NAN[..k] + (INF + rest) && |whole| == k + 3 + |rest|
    ensures rest == [] ==> EndsInInf(whole)
  {
    assert INF + [] == INF;
    if rest == [] { assert whole[|whole| - 3..] == INF; }
  }

  lemma InfinityRead(t: Text, q: nat, k: nat, rest: Text)
    requires k <= 2 && (rest == [] || rest == INITY) && Occurs(t, q, NAN[..k] + (INF + rest))
    ensures Matched(t, q, NAN_NAME) == k && Matched(t, q + k, INF_NAME) == 3
    ensures rest == INITY ==> At(t, q + k + 3) == LOWER_I && Matched(t, q + k + 3, INITY_NAME) == 5
    ensures At(t, q) == UPPER_I || At(t, q) == UPPER_N
  {
    hide Occurs, Matched;
    OccursConcat(t, q, NAN[..k], INF + rest);
    OccursConcat(t, q + k, INF, rest);
    OccursAt(t, q + k, INF, 0);
    OccursAt(t, q + k, INF, 1);
    OccursAt(t, q + k, INF, 2);
    MatchedThree(t, q + k, 0x49, 0x6E, 0x66);
    if k > 0 { OccursAt(t, q, NAN[..k], 0); }
    if k > 1 { OccursAt(t, q, NAN[..k], 1); }
    MatchedThree(t, q, 0x4E, 0x61, 0x4E);
    if rest == INITY {
      OccursAt(t, q + k + 3, INITY, 0);
      InTheText(t, q + k + 3, INITY);
      MatchedOccurs(t, q + k + 3, INITY);
    }
  }

  lemma InTheText(t: Text, p: nat, s: Text)
    requires Occurs(t, p, s)
    ensures p + |s| <= |t|
  {
  }

  lemma {:induction false} MatchedText(t: Text, p: nat, word: Text)
    requires p <= |t| && forall i :: 0 <= i < |word| ==> word[i] != 0
    ensures var n := Matched(t, p, word);
            n <= |word| && p + n <= |t| && t[p..p + n] == word[..n]
    decreases |word|
  {
    var n := Matched(t, p, word);
    if n > 0 {
      MatchedText(t, p + 1, word[1..]);
      assert t[p..p + n] == [t[p]] + t[p + 1..p + n];
      assert word[..n] == [word[0]] + word[1..][..n - 1];
    }
  }

  lemma FractionRead(t: Text, p: nat, n: Numeral)
    requires IsNumeral(n) && Occurs(t, p, FractionText(n))
    requires n.fraction.None? ==> At(t, p) != DOT
    requires n.fraction.Some? ==> !IsDigit(At(t, p + |FractionText(n)|))
    ensures Fraction(t, p) == ScanOk(p + |FractionText(n)|)
    ensures FractionAt(t, p) == n.fraction && FractionEnd(t, p) == p + |FractionText(n)|
  {
    if n.fraction.Some? {
      var s := n.fraction.value;
      OccursFirst(t, p, DOT, s);
      OccursAt(t, p + 1, s, 0);
      DigitsEndAt(t, p + 1, s);
    }
  }

  lemma PowerPlaces(t: Text, p: nat, x: Power)
    requires IsSign(x.sign) && x.digits != [] && Digits(x.digits)
    requires Occurs(t, p, [x.letter] + (x.sign + x.digits))
    ensures var k := p + 1 + |x.sign|;
            && At(t, p) == x.letter && t[p + 1..k] == x.sign && Occurs(t, k, x.digits)
            && IsDigit(At(t, k))
            && k == (if At(t, p + 1) == 0x2B || At(t, p + 1) == MINUS then p + 2 else p + 1)
            && (x.sign == [MINUS] <==> At(t, p + 1) == MINUS)
  {
    OccursFirst(t, p, x.letter, x.sign + x.digits);
    OccursConcat(t, p + 1, x.sign, x.digits);
    OccursAt(t, p + 1 + |x.sign|, x.digits, 0);
    if x.sign != [] { OccursAt(t, p + 1, x.sign, 0); }
  }

  lemma PowerRead(e: Env, start: nat, p: nat, n: Numeral)
    requires IsNumeral(n) && start <= p <= |e.text| && Occurs(e.text, p, PowerText(n))
    requires n.power.None? ==> At(e.text, p) != 0x65 && At(e.text, p) != 0x45
    requires n.power.Some? ==> !IsDigit(At(e.text, p + |PowerText(n)|))
    requires InRange(e, n) && e.text[start..p + |PowerText(n)|] == NumeralText(n)
    ensures Exponent(e, start, p) == ScanOk(p + |PowerText(n)|)
    ensures PowerAt(e.text, p) == n.power
  {
    hide IsDigit, AllDigits, Digits, IsWhole, IsSpecial, IsSign, NumeralText, InRange, Occurs, Exponent, PowerAt,
      DigitsEnd, PowerText;
    PowerTextIs(n);
    if n.power.Some? {
      var x := n.power.value;
      LiteralInRange(e, n);
      DigitsAre(x.digits);
      PowerPlaces(e.text, p, x);
      var k := p + 1 + |x.sign|;
      DigitsEndAt(e.text, k, x.digits);
      OccursSlice(e.text, k, x.digits);
      assert k + |x.digits| == p + |PowerText(n)|;
      PowerScanned(e, start, p, x);
    } else {
      NoPower(e, start, p);
    }
  }

  lemma PowerTextIs(n: Numeral)
    ensures n.power.Some? ==>
              var x := n.power.value;
              PowerText(n) == [x.letter] + (x.sign + x.digits) && |PowerText(n)| == 1 + |x.sign| + |x.digits|
    ensures n.power.None? ==> PowerText(n) == []
  {
  }

  lemma LiteralInRange(e: Env, n: Numeral)
    requires IsNumeral(n) && InRange(e, n)
    ensures n.power.Some? && n.power.value.sign != [MINUS] ==> !e.literalTooBig(NumeralText(n))
  {
  }

  lemma NoPower(e: Env, start: nat, p: nat)
    requires start <= p <= |e.text| && At(e.text, p) != 0x65 && At(e.text, p) != 0x45
    ensures Exponent(e, start, p) == ScanOk(p) && PowerAt(e.text, p).None?
  {
  }

  lemma PowerScanned(e: Env, start: nat, p: nat, x: Power)
    requires start <= p && (x.letter == 0x65 || x.letter == 0x45)
    requires var k := p + 1 + |x.sign|;
             && k + |x.digits| <= |e.text| && x.digits != []
             && At(e.text, p) == x.letter && e.text[p + 1..k] == x.sign
             && k == (if At(e.text, p + 1) == 0x2B || At(e.text, p + 1) == MINUS then p + 2 else p + 1)
             && (x.sign == [MINUS] <==> At(e.text, p + 1) == MINUS)
             && DigitsEnd(e.text, k) == k + |x.digits| && e.text[k..k + |x.digits|] == x.digits
             && (x.sign != [MINUS] ==> !e.literalTooBig(e.text[start..k + |x.digits|]))
    ensures Exponent(e, start, p) == ScanOk(p + 1 + |x.sign| + |x.digits|)
    ensures PowerAt(e.text, p) == Some(x)
  {
    hide DigitsEnd;
  }

  lemma NumeralOccurs(t: Text, p: nat, n: Numeral)
    requires Occurs(t, p, NumeralText(n))
    ensures var q := p + |SignText(n)|;
            var r := q + |n.whole|;
            var s := r + |FractionText(n)|;
            && Occurs(t, p, SignText(n)) && Occurs(t, q, n.whole)
            && Occurs(t, r, FractionText(n)) && Occurs(t, s, PowerText(n))
            && s + |PowerText(n)| == p + |NumeralText(n)| <= |t|
  {
    hide SignText, FractionText, PowerText;
    var f, x := FractionText(n), PowerText(n);
    OccursConcat(t, p, SignText(n), n.whole + (f + x));
    OccursConcat(t, p + |SignText(n)|, n.whole, f + x);
    OccursConcat(t, p + |SignText(n)| + |n.whole|, f, x);
  }

  lemma FirstByte(t: Text, p: nat, s: Text)
    requires Occurs(t, p, s) && s != []
    ensures At(t, p) == s[0]
  {
    OccursAt(t, p, s, 0);
  }

  /** What the first byte behind the whole part can be. */
  lemma AfterWhole(t: Text, r: nat, n: Numeral)
    requires IsNumeral(n) && Occurs(t, r, FractionText(n)) && Occurs(t, r + |FractionText(n)|, PowerText(n))
    requires !Prolongs(n, At(t, r + |FractionText(n)| + |PowerText(n)|))
    ensures IsWhole(n.whole) && IsDigit(At(t, r)) ==> n.whole == [0x30]
    ensures n.fraction.None? ==> At(t, r) != DOT
    ensures EndsInInf(n.whole) ==> At(t, r) != LOWER_I
  {
    hide Occurs, Digits, IsWhole, IsSpecial, EndsInInf;
    if n.fraction.Some? { FirstByte(t, r, FractionText(n)); }
    else if n.power.Some? { FirstByte(t, r, PowerText(n)); }
  }

  /** What the first byte behind the fraction and behind the power can be. */
  lemma AfterFraction(t: Text, s: nat, n: Numeral)
    requires IsNumeral(n) && Occurs(t, s, PowerText(n)) && !Prolongs(n, At(t, s + |PowerText(n)|))
    ensures n.fraction.Some? ==> !IsDigit(At(t, s))
    ensures n.power.None? ==> At(t, s) != 0x65 && At(t, s) != 0x45
    ensures n.power.Some? ==> !IsDigit(At(t, s + |PowerText(n)|))
  {
    hide Occurs, IsWhole, IsSpecial, EndsInInf;
    if n.power.Some? { FirstByte(t, s, PowerText(n)); }
  }

  lemma SignRead(t: Text, p: nat, n: Numeral)
    requires IsNumeral(n) && Occurs(t, p, SignText(n)) && Occurs(t, p + |SignText(n)|, n.whole)
    ensures p + |SignText(n)| == AfterSign(t, p) && (At(t, p) == MINUS <==> n.minus)
  {
    hide Occurs, IsSpecial;
    if !IsWhole(n.whole) { SpecialFirst(n.whole); }
    FirstByte(t, p + |SignText(n)|, n.whole);
    if n.minus { FirstByte(t, p, SignText(n)); }
  }

  lemma SpecialFirst(s: Text)
    requires IsSpecial(s)
    ensures s != [] && (s[0] == UPPER_I || s[0] == UPPER_N) && !IsWhole(s)
  {
  }

  /** The lexer reads every number of the grammar that nothing prolongs. */
  lemma NumeralRead(e: Env, p: nat, n: Numeral)
    requires IsNumeral(n) && InRange(e, n) && Occurs(e.text, p, NumeralText(n))
    requires !Prolongs(n, At(e.text, p + |NumeralText(n)|))
    ensures Number(e, p) == Leaf(p + |NumeralText(n)|, NumeralEvent(e, n), p)
    ensures NumeralAt(e.text, p) == n
  {
    hide Decimal, NumeralText, FractionText, PowerText, SignText, FractionAt, FractionEnd, PowerAt, AfterSign,
      IntegerEnd, NanOrInf, Exponent, Fraction, Fits64, Digits, WholePart, Prolongs, InRange, WholeEnd, IsNumeral,
      NumeralEvent, IsWhole, Lexer.IntegerEvent, Number, WholeFits;
    var t := e.text;
    NumeralOccurs(t, p, n);
    var q := p + |SignText(n)|;
    var r := q + |n.whole|;
    var s := r + |FractionText(n)|;
    SignRead(t, p, n);
    AfterWhole(t, r, n);
    AfterFraction(t, s, n);
    WholePartRead(e, p, n);
    FractionRead(t, r, n);
    OccursSlice(t, p, NumeralText(n));
    OccursSlice(t, q, n.whole);
    PowerRead(e, p, s, n);
    TextLength(n);
    NumeralEventIs(e, n);
    NumberOf(e, p, r, s, s + |PowerText(n)|, n);
  }

  /** The three scans one behind the other. */
  lemma NumberOf(e: Env, p: nat, r: nat, s: nat, z: nat, n: Numeral)
    requires p <= r <= s <= z <= |e.text| && (At(e.text, p) == MINUS <==> n.minus)
    requires WholePart(e, p) ==
             if !IsWhole(n.whole) then NotFinite(r)
             else if WholeFits(n) then Whole(r, true, Decimal(n.whole))
             else Whole(r, false, 0)
    requires Fraction(e.text, r) == ScanOk(s) && Exponent(e, p, s) == ScanOk(z) && e.text[p..z] == NumeralText(n)
    requires z == r <==> n.fraction.None? && n.power.None?
    ensures Number(e, p) ==
            Leaf(z,
                 if e.flags.numbersAsStrings then RawNumber(NumeralText(n))
                 else if WholeFits(n) && n.fraction.None? && n.power.None? then
                   Lexer.IntegerEvent(n.minus, Decimal(n.whole))
                 else Double(NumeralText(n)),
                 p)
  {
    hide Decimal, NumeralText, WholePart, Fraction, Exponent, Lexer.IntegerEvent;
  }

  /** The event of a number, as the lexer chooses it. */
  lemma NumeralEventIs(e: Env, n: Numeral)
    requires IsNumeral(n)
    ensures NumeralEvent(e, n) ==
            if e.flags.numbersAsStrings then RawNumber(NumeralText(n))
            else if WholeFits(n) && n.fraction.None? && n.power.None? then
              Lexer.IntegerEvent(n.minus, Decimal(n.whole))
            else Double(NumeralText(n))
  {
    hide Decimal, NumeralText, Digits, Lexer.IntegerEvent;
    if IsWhole(n.whole) {
      ValueIs(n.whole);
      IntegerEventIs(n.minus, Decimal(n.whole));
    }
  }

  /** Do 64 bits hold the whole part? */
  predicate WholeFits(n: Numeral)
    ensures WholeFits(n) ==> AllDigits(n.whole) && Fits64(n.minus, Decimal(n.whole))
  {
    IsWhole(n.whole) && (DigitsAre(n.whole); Fits64(n.minus, Decimal(n.whole)))
  }

  lemma WholePartRead(e: Env, p: nat, n: Numeral)
    requires IsNumeral(n) && InRange(e, n) && p <= |e.text| && (At(e.text, p) == MINUS <==> n.minus)
    requires var q := AfterSign(e.text, p);
             && Occurs(e.text, q, n.whole)
             && (IsWhole(n.whole) && IsDigit(At(e.text, q + |n.whole|)) ==> n.whole == [0x30])
             && (EndsInInf(n.whole) ==> At(e.text, q + |n.whole|) != LOWER_I)
    ensures var q := AfterSign(e.text, p);
            && WholeEnd(e.text, q) == q + |n.whole| <= |e.text|
            && WholePart(e, p) ==
               if !IsWhole(n.whole) then NotFinite(q + |n.whole|)
               else if WholeFits(n) then Whole(q + |n.whole|, true, Decimal(n.whole))
               else Whole(q + |n.whole|, false, 0)
  {
    hide Decimal, NanOrInf, IntegerEnd, WholeEnd, Digits, Lexer.IntegerEvent, IsSpecial, EndsInInf, Fits64;
    var q := AfterSign(e.text, p);
    if IsWhole(n.whole) {
      ValueIs(n.whole);
      IntegerEventIs(n.minus, Decimal(n.whole));
      WholeRead(e.text, q, n.whole);
    } else {
      SpecialFirst(n.whole);
      SpecialRead(e.text, q, n.whole);
      NoInteger(e.text, q);
    }
  }

  lemma NoInteger(t: Text, q: nat)
    requires !IsDigit(At(t, q))
    ensures IntegerEnd(t, q) == q
  {
  }

  lemma TextLength(n: Numeral)
    ensures |NumeralText(n)| == |SignText(n)| + |n.whole| + |FractionText(n)| + |PowerText(n)|
    ensures |FractionText(n)| == 0 <==> n.fraction.None?
    ensures |PowerText(n)| == 0 <==> n.power.None?
  {
  }

  // From the lexer to the grammar

  lemma SpecialParts(t: Text, q: nat)
    requires q <= |t| && NanOrInf(t, q).ScanOk?
    ensures var k, r := Matched(t, q, NAN_NAME), NanOrInf(t, q).pos;
            if k == 3 then r == q + 3
            else
              && k < 3 && Matched(t, q + k, INF_NAME) == 3
              && (r == q + k + 3 || (r == q + k + 8 && Matched(t, q + k + 3, INITY_NAME) == 5))
  {
    hide Matched;
  }

  /** What may stand for a number that is none: the three names that are documented, and
      four that begin like the first one and go on like another. */
  lemma SpecialNames(s: Text)
    ensures IsSpecial(s) <==>
            || s == [0x4E, 0x61, 0x4E]
            || s == [0x49, 0x6E, 0x66]
            || s == [0x49, 0x6E, 0x66, 0x69, 0x6E, 0x69, 0x74, 0x79]
            || s == [0x4E, 0x49, 0x6E, 0x66]
            || s == [0x4E, 0x49, 0x6E, 0x66, 0x69, 0x6E, 0x69, 0x74, 0x79]
            || s == [0x4E, 0x61, 0x49, 0x6E, 0x66]
            || s == [0x4E, 0x61, 0x49, 0x6E, 0x66, 0x69, 0x6E, 0x69, 0x74, 0x79]
  {
    assert NAN[..0] + INF == [0x49, 0x6E, 0x66];
    assert NAN[..1] + INF == [0x4E, 0x49, 0x6E, 0x66];
    assert NAN[..2] + INF == [0x4E, 0x61, 0x49, 0x6E, 0x66];
    assert NAN[..0] + (INF + INITY) == [0x49, 0x6E, 0x66, 0x69, 0x6E, 0x69, 0x74, 0x79];
    assert NAN[..1] + (INF + INITY) == [0x4E, 0x49, 0x6E, 0x66, 0x69, 0x6E, 0x69, 0x74, 0x79];
    assert NAN[..2] + (INF + INITY) == [0x4E, 0x61, 0x49, 0x6E, 0x66, 0x69, 0x6E, 0x69, 0x74, 0x79];
  }

  /** Two matched texts, one behind the other. */
  lemma MatchedTwice(t: Text, p: nat, q: nat, r: nat, a: Text, b: Text)
    requires p <= q <= r <= |t| && t[p..q] == a && t[q..r] == b
    ensures t[p..r] == a + b
  {
    assert t[p..r] == t[p..q] + t[q..r];
  }

  lemma SpecialRecovered(t: Text, q: nat)
    requires q <= |t| && NanOrInf(t, q).ScanOk?
    ensures IsSpecial(t[q..NanOrInf(t, q).pos])
  {
    hide Matched, NanOrInf;
    var k, r := Matched(t, q, NAN_NAME), NanOrInf(t, q).pos;
    SpecialParts(t, q);
    MatchedText(t, q, NAN_NAME);
    if k == 3 {
      assert NAN[..3] == NAN;
    } else {
      var m := q + k + 3;
      MatchedText(t, q + k, INF_NAME);
      assert INF[..3] == INF;
      MatchedTwice(t, q, q + k, m, NAN[..k], INF);
      if r != m {
        MatchedText(t, m, INITY_NAME);
        assert INITY[..5] == INITY;
        MatchedTwice(t, q, m, r, NAN[..k] + INF, INITY);
        assert NAN[..k] + INF + INITY == NAN[..k] + (INF + INITY);
      }
    }
  }

  lemma WholeRecovered(t: Text, q: nat)
    requires q <= |t| && IsDigit(At(t, q))
    ensures q < IntegerEnd(t, q) <= |t| && IsWhole(t[q..IntegerEnd(t, q)])
  {
    SliceDigits(t, q, IntegerEnd(t, q));
    DigitsAre(t[q..IntegerEnd(t, q)]);
  }

  lemma FractionRecovered(t: Text, p: nat)
    requires p <= |t| && Fraction(t, p).ScanOk?
    ensures FractionEnd(t, p) == Fraction(t, p).pos
    ensures FractionAt(t, p).Some? ==> FractionAt(t, p).value != [] && Digits(FractionAt(t, p).value)
    ensures t[p..FractionEnd(t, p)] == if FractionAt(t, p).None? then [] else [DOT] + FractionAt(t, p).value
  {
    if At(t, p) == DOT {
      SliceDigits(t, p + 1, DigitsEnd(t, p + 1));
    }
  }

  lemma PowerRecovered(e: Env, start: nat, p: nat)
    requires start <= p <= |e.text| && Exponent(e, start, p).ScanOk?
    ensures var r := Exponent(e, start, p).pos;
            var w := PowerAt(e.text, p);
            && (w.Some? ==>
                  && (w.value.letter == 0x65 || w.value.letter == 0x45)
                  && IsSign(w.value.sign)
                  && w.value.digits != [] && Digits(w.value.digits)
                  && (w.value.sign != [MINUS] ==> !e.literalTooBig(e.text[start..r])))
            && e.text[p..r] == if w.None? then [] else [w.value.letter] + (w.value.sign + w.value.digits)
  {
    var t := e.text;
    if PowerAt(t, p).Some? {
      var signed := At(t, p + 1) == 0x2B || At(t, p + 1) == MINUS;
      var k := if signed then p + 2 else p + 1;
      SliceDigits(t, k, DigitsEnd(t, k));
      assert t[p + 1..k] == if signed then [t[p + 1]] else [];
      assert t[p..DigitsEnd(t, k)] == [t[p]] + (t[p + 1..k] + t[k..DigitsEnd(t, k)]);
    }
  }

  lemma WholePartRecovered(e: Env, p: nat)
    requires p <= |e.text| && !WholePart(e, p).BadWhole?
    ensures var q := AfterSign(e.text, p);
            var r := WholeEnd(e.text, q);
            var n := Numeral(At(e.text, p) == MINUS, e.text[q..r], None, None);
            && (IsDigit(At(e.text, q)) || NanOrInf(e.text, q).ScanOk?)
            && IsNumeral(n) && InRange(e, n)
            && WholePart(e, p) ==
               if !IsWhole(n.whole) then NotFinite(r)
               else if WholeFits(n) then Whole(r, true, Decimal(n.whole))
               else Whole(r, false, 0)
  {
    hide Decimal, NanOrInf, IntegerEnd, Digits, Lexer.IntegerEvent, IsSpecial, Fits64;
    var t := e.text;
    var q := AfterSign(t, p);
    if IsDigit(At(t, q)) {
      WholeRecovered(t, q);
      var n := Numeral(At(t, p) == MINUS, t[q..IntegerEnd(t, q)], None, None);
      ValueIs(n.whole);
      IntegerEventIs(n.minus, Decimal(n.whole));
    } else {
      NoInteger(t, q);
      SpecialRecovered(t, q);
      SpecialFirst(t[q..WholeEnd(t, q)]);
    }
  }

  lemma PartTexts(t: Text, p: nat, n: Numeral, r: nat, s: nat, z: nat)
    requires p <= |t| && n == NumeralAt(t, p) && AfterSign(t, p) <= r <= s <= z <= |t|
    requires t[r..s] == if n.fraction.None? then [] else [DOT] + n.fraction.value
    requires t[s..z] == if n.power.None? then []
                        else [n.power.value.letter] + (n.power.value.sign + n.power.value.digits)
    ensures t[p..AfterSign(t, p)] == SignText(n) && t[r..s] == FractionText(n) && t[s..z] == PowerText(n)
  {
    hide FractionAt, PowerAt, IntegerEnd, DigitsEnd, IsDigit, WholeEnd;
  }

  lemma FourParts(t: Text, p: nat, q: nat, r: nat, s: nat, z: nat)
    requires p <= q <= r <= s <= z <= |t|
    ensures t[p..z] == t[p..q] + (t[q..r] + (t[r..s] + t[s..z]))
  {
    assert t[r..z] == t[r..s] + t[s..z];
    assert t[q..z] == t[q..r] + t[r..z];
    assert t[p..z] == t[p..q] + t[q..z];
  }

  /** Whatever the lexer accepts is a number of the grammar. */
  lemma NumeralRecovered(e: Env, p: nat)
    requires p <= |e.text| && Number(e, p).Leaf?
    ensures var n := NumeralAt(e.text, p);
            && IsNumeral(n) && InRange(e, n)
            && e.text[p..Number(e, p).pos] == NumeralText(n)
            && Number(e, p).event == NumeralEvent(e, n)
            && !Prolongs(n, At(e.text, Number(e, p).pos))
  {
    hide Decimal, FractionAt, FractionEnd, PowerAt, IntegerEnd, DigitsEnd, Fraction, Exponent, WholePart, WholeEnd,
      Lexer.IntegerEvent, Fits64, Digits, NanOrInf, FractionText, PowerText, SignText, AfterSign, IsWhole, IsSpecial,
      ValueOf, NumeralEvent;
    var t := e.text;
    var n := NumeralAt(t, p);
    WholePartRecovered(e, p);
    var q := AfterSign(t, p);
    var r := WholeEnd(t, q);
    FractionRecovered(t, r);
    var s := FractionEnd(t, r);
    PowerRecovered(e, p, s);
    var z := Exponent(e, p, s).pos;
    PartTexts(t, p, n, r, s, z);
    FourParts(t, p, q, r, s, z);
    TextLength(n);
    NumeralEventIs(e, n);
    WholeStops(t, q);
    PartsStop(e, p, r, s);
  }

  /** Where the whole part has ended, it does not go on. */
  lemma WholeStops(t: Text, q: nat)
    requires q <= |t| && (IsDigit(At(t, q)) || NanOrInf(t, q).ScanOk?)
    ensures var r := WholeEnd(t, q);
            && (IsWhole(t[q..r]) && IsDigit(At(t, r)) ==> t[q..r] == [0x30])
            && (EndsInInf(t[q..r]) ==> At(t, r) != LOWER_I)
  {
    var r := WholeEnd(t, q);
    if IsDigit(At(t, q)) {
      hide NanOrInf, DigitsEnd, IsWhole, EndsInInf;
      assert t[q..q + 1] == [t[q]];
      assert IsDigit(At(t, r - 1)) && t[r - 1..r] == [t[r - 1]];
      NotInf(t, q, r - 1, [t[r - 1]]);
    } else {
      SpecialStops(t, q);
      SpecialRecovered(t, q);
      SpecialFirst(t[q..r]);
    }
  }

  lemma InfLast(s: Text)
    requires EndsInInf(s)
    ensures s[|s| - 1] == 0x66
  {
    assert s[|s| - 3..][2] == s[|s| - 1];
  }

  /** A text that a word ends is no Infinity if the word does not end like it. */
  lemma NotInf(t: Text, q: nat, p: nat, word: Text)
    requires q <= p && p + |word| <= |t| && t[p..p + |word|] == word
    requires word != [] && word[|word| - 1] != 0x66
    ensures !EndsInInf(t[q..p + |word|])
  {
    hide EndsInInf;
    var s := t[q..p + |word|];
    assert s[|s| - 1] == t[p..p + |word|][|word| - 1];
    if EndsInInf(s) { InfLast(s); }
  }

  lemma SpecialStops(t: Text, q: nat)
    requires q <= |t| && NanOrInf(t, q).ScanOk?
    ensures var r := NanOrInf(t, q).pos; EndsInInf(t[q..r]) ==> At(t, r) != LOWER_I
  {
    hide Matched, EndsInInf;
    var k, r := Matched(t, q, NAN_NAME), NanOrInf(t, q).pos;
    if k == 3 {
      MatchedText(t, q, NAN_NAME);
      NotInf(t, q, q, NAN);
    } else if r != q + k + 3 {
      var m := q + k + 3;
      MatchedText(t, m, INITY_NAME);
      NotInf(t, q, m, INITY);
    }
  }

  /** Where fraction and power have ended, they do not go on. */
  lemma PartsStop(e: Env, start: nat, r: nat, s: nat)
    requires start <= r <= |e.text| && Fraction(e.text, r).ScanOk? && s == FractionEnd(e.text, r)
    requires Exponent(e, start, s).ScanOk?
    ensures var t, z := e.text, Exponent(e, start, s).pos;
            && (FractionAt(t, r).None? ==> At(t, r) != DOT && s == r)
            && (FractionAt(t, r).Some? ==> !IsDigit(At(t, s)))
            && (PowerAt(t, s).None? ==> At(t, s) != 0x65 && At(t, s) != 0x45 && z == s)
            && (PowerAt(t, s).Some? ==> !IsDigit(At(t, z)))
  {
    hide Decimal;
  }

  // Literal names

  lemma {:induction false} MatchedOccurs(t: Text, p: nat, word: Text)
    ensures p <= |t| ==> (Occurs(t, p, word) <==> Matched(t, p, word) == |word| && p + |word| <= |t|)
    decreases |word|
  {
    if word != [] {
      assert word == [word[0]] + word[1..];
      OccursFirst(t, p, word[0], word[1..]);
      MatchedOccurs(t, p + 1, word[1..]);
    }
  }
}
