/**
 `parse_number` reads every number of the grammar: where it ends and what it is.
 */
module JsonReadNumbers {
  import opened JsonText
  import opened JsonParse
  import opened JsonRoundTrip
  import opened JsonNumberEnds
  import opened JsonSyntax

  // ----- digits -----

  lemma DigitsRun(t: string, i: nat, s: string)
    requires Has(t, i, s) && AllDigits(s) && !IsDigit(At(t, i + |s|))
    ensures DigitRun(t, i) == i + |s|
  {
    forall k | i <= k < i + |s| ensures IsDigit(t[k]) {
      HasAt(t, i, s, k - i);
    }
    DigitRunUnique(t, i, i + |s|);
  }

  lemma NaturalMore(w: string, c: char)
    requires AllDigits(w) && '0' <= c <= '9'
    ensures AllDigits(w + [c]) && Natural(w + [c]) == 10 * Natural(w) + DigitValue(c)
  {
    assert (w + [c])[..|w|] == w;
  }

  lemma OneDigit(t: string, i: nat, s: string)
    requires s != "" && Has(t, i, s) && AllDigits(s)
    ensures i < |t| && t[i] == s[0] && Has(t, i + 1, s[1..]) && AllDigits(s[1..])
  {
    assert s == [s[0]] + s[1..];
    HasAppend(t, i, [s[0]], s[1..]);
    HasChar(t, i, s[0]);
  }

  /** Digits read behind others make one number with them. */
  lemma {:induction false} DigitsAdd(t: string, i: nat, w: string, s: string)
    requires Has(t, i, s) && AllDigits(w) && AllDigits(s)
    ensures AllDigits(w + s) && Accumulate(t, i, i + |s|, Natural(w) as real) == Natural(w + s) as real
    decreases s
  {
    if s == "" {
      assert w + s == w;
    } else {
      OneDigit(t, i, s);
      NaturalMore(w, s[0]);
      DigitsAdd(t, i + 1, w + [s[0]], s[1..]);
      assert (w + [s[0]]) + s[1..] == w + s;
    }
  }

  lemma {:induction false} DigitsAddInt(t: string, i: nat, w: string, s: string)
    requires Has(t, i, s) && AllDigits(w) && AllDigits(s)
    ensures AllDigits(w + s) && AccumulateInt(t, i, i + |s|, Natural(w)) == Natural(w + s)
    decreases s
  {
    if s == "" {
      assert w + s == w;
    } else {
      OneDigit(t, i, s);
      NaturalMore(w, s[0]);
      DigitsAddInt(t, i + 1, w + [s[0]], s[1..]);
      assert (w + [s[0]]) + s[1..] == w + s;
    }
  }

  lemma DigitsAlone(t: string, i: nat, s: string)
    requires Has(t, i, s) && AllDigits(s)
    ensures Accumulate(t, i, i + |s|, 0.0) == Natural(s) as real && AccumulateInt(t, i, i + |s|, 0) == Natural(s)
  {
    DigitsAdd(t, i, "", s);
    DigitsAddInt(t, i, "", s);
    assert "" + s == s;
  }

  // ----- powers of ten -----

  lemma {:induction false} PowerUp(k: nat)
    ensures Power10(k) == Pow(k) as real
  {
    if k > 0 {
      PowerUp(k - 1);
    }
  }

  lemma TenAndTenth(p: real, q: real)
    ensures (p / 10.0) * (10.0 * q) == p * q
  {
  }

  lemma {:induction false} PowerDown(k: nat)
    ensures Pow(k) > 0 && Power10(0 - k) * Pow(k) as real == 1.0
  {
    if k > 0 {
      PowerDown(k - 1);
      var p, q := Power10(0 - (k - 1)), Pow(k - 1) as real;
      assert Power10(0 - k) == p / 10.0 && Pow(k) as real == 10.0 * q;
      TenAndTenth(p, q);
    } else {
      assert Power10(0) == 1.0;
    }
  }

  lemma SameProduct(x: real, y: real, b: real)
    requires b > 0.0 && x * b == y * b
    ensures x == y
  {
  }

  lemma Quotient(a: real, b: real, p: real)
    requires b > 0.0 && p * b == 1.0
    ensures a * p == a / b
  {
    assert (a / b) * b == a;
    assert (a * p) * b == a * (p * b);
    SameProduct(a * p, a / b, b);
  }

  lemma ProductOfInts(a: int, b: int)
    ensures a as real * b as real == (a * b) as real
  {
  }

  lemma ScaledIs(m: int, k: int)
    ensures m as real * Power10(k) == Scaled(m, k)
  {
    if k >= 0 {
      PowerUp(k);
      ProductOfInts(m, Pow(k));
    } else {
      PowerDown(-k);
      Quotient(m as real, Pow(-k) as real, Power10(k));
    }
  }

  // ----- the parts of a number -----

  /** Where the parts stand. */
  predicate Parts(n: NumberText, t: string, i: nat, p: nat, b: nat, f: nat, e: nat) {
    && p == (if n.minus then i + 1 else i) && b == p + |n.whole| && f == b + |FractionText(n.fraction)|
    && e == f + |ExponentText(n.exponent)| && e <= |t|
    && Has(t, i, if n.minus then "-" else "") && Has(t, p, n.whole)
    && Has(t, b, FractionText(n.fraction)) && Has(t, f, ExponentText(n.exponent))
  }

  lemma PartsStand(n: NumberText, t: string, i: nat) returns (p: nat, b: nat, f: nat, e: nat)
    requires Has(t, i, NumberString(n))
    ensures Parts(n, t, i, p, b, f, e) && e == i + |NumberString(n)|
  {
    var sign := if n.minus then "-" else "";
    HasFour(t, i, sign, n.whole, FractionText(n.fraction), ExponentText(n.exponent));
    p := i + |sign|;
    b := p + |n.whole|;
    f := b + |FractionText(n.fraction)|;
    e := f + |ExponentText(n.exponent)|;
  }

  function Next(t: string, e: nat): char
    requires e <= |t|
  {
    if e < |t| then At(t, e + 1) else '\0'
  }

  /** The parts in the text, with nothing behind that belongs to the number. */
  predicate Read(n: NumberText, t: string, i: nat, p: nat, b: nat, f: nat, e: nat) {
    AllowedNumber(n) && Parts(n, t, i, p, b, f, e) && !GoesOn(n, At(t, e), Next(t, e))
  }

  lemma ExponentStarts(n: NumberText, t: string, i: nat, p: nat, b: nat, f: nat, e: nat)
    requires Read(n, t, i, p, b, f, e)
    ensures HasExponent(t, f) <==> n.exponent.Exponent?
    ensures n.exponent.Exponent? ==> f < |t| && t[f] == n.exponent.letter
  {
    if n.exponent.Exponent? {
      HasAt(t, f, ExponentText(n.exponent), 0);
    }
  }

  lemma ExponentStands(x: Exponent, t: string, f: nat, d: nat, e: nat)
    requires x.Exponent? && AllowedExponent(x) && Has(t, f, ExponentText(x)) && e == f + |ExponentText(x)| <= |t|
    requires d == f + 1 + |x.sign|
    requires !IsDigit(At(t, e)) && (x.sign == "" && x.digits == "" ==> At(t, e) != '+' && At(t, e) != '-')
    ensures HasExponent(t, f) && ExponentStart(t, f) == d && Has(t, d, x.digits) && e == d + |x.digits|
    ensures At(t, f + 1) == '-' <==> x.sign == "-"
  {
    HasThree(t, f, [x.letter], x.sign, x.digits);
    HasChar(t, f, x.letter);
    if x.sign != "" {
      HasAt(t, f + 1, x.sign, 0);
    } else if x.digits != "" {
      HasAt(t, f + 1, x.digits, 0);
    }
  }

  lemma ExponentEndsThere(n: NumberText, t: string, i: nat, p: nat, b: nat, f: nat, e: nat)
    requires Read(n, t, i, p, b, f, e) && n.exponent.Exponent?
    ensures HasExponent(t, f) && DigitRun(t, ExponentStart(t, f)) == e
    ensures ExponentValue(t, f) == ExponentNumber(n.exponent)
  {
    var x := n.exponent;
    var d := f + 1 + |x.sign|;
    ExponentStands(x, t, f, d, e);
    DigitsRun(t, d, x.digits);
    DigitsAlone(t, d, x.digits);
  }

  lemma FractionEndsThere(n: NumberText, t: string, i: nat, p: nat, b: nat, f: nat, e: nat)
    requires Read(n, t, i, p, b, f, e)
    ensures (HasFraction(t, b) <==> n.fraction != "") && FractionEnd(t, b) == f
    ensures n.fraction != "" ==> Has(t, b + 1, n.fraction) && t[b] == '.'
  {
    ExponentStarts(n, t, i, p, b, f, e);
    if n.fraction != "" {
      HasAppend(t, b, ".", n.fraction);
      HasChar(t, b, '.');
      HasAt(t, b + 1, n.fraction, 0);
      DigitsRun(t, b + 1, n.fraction);
    }
  }

  lemma SignIs(n: NumberText, t: string, i: nat, p: nat, b: nat, f: nat, e: nat)
    requires Read(n, t, i, p, b, f, e)
    ensures i <= |t| && (At(t, i) == '-' <==> n.minus) && (n.minus || IsDigit(At(t, i)))
    ensures n.whole != "" ==> p < |t| && t[p] == n.whole[0]
  {
    if n.minus {
      HasChar(t, i, '-');
    }
    if n.whole != "" {
      HasAt(t, p, n.whole, 0);
    }
  }

  /** What may stand behind the digits before the point. */
  lemma BehindWhole(n: NumberText, t: string, i: nat, p: nat, b: nat, f: nat, e: nat)
    requires Read(n, t, i, p, b, f, e)
    ensures !IsDigit(At(t, b)) || (n.whole == "0" && At(t, b) == '0')
  {
    ExponentStarts(n, t, i, p, b, f, e);
    FractionEndsThere(n, t, i, p, b, f, e);
  }

  lemma AfterZero(w: string, t: string, p: nat, b: nat)
    requires AllowedWhole(w) && w != "" && w[0] == '0' && Has(t, p, w) && b == p + |w|
    requires !IsDigit(At(t, b)) || (w == "0" && At(t, b) == '0')
    ensures p < b && At(t, p) == '0' && Accumulate(t, p + 1, b, 0.0) == Accumulate(t, p, b, 0.0)
    ensures if '1' <= At(t, p + 1) <= '9' then DigitRun(t, p + 1) == b else b == p + 1
  {
    OneDigit(t, p, w);
    var rest := w[1..];
    if rest != "" {
      HasAt(t, p + 1, rest, 0);
      DigitsRun(t, p + 1, rest);
    }
  }

  lemma WholeIs(w: string, t: string, i: nat, p: nat, b: nat)
    requires i <= |t| && p == (if At(t, i) == '-' then i + 1 else i) && b == p + |w|
    requires AllowedWhole(w) && Has(t, p, w)
    requires !IsDigit(At(t, b)) || (w == "0" && At(t, b) == '0')
    ensures IntegerEnd(t, i) == b && Accumulate(t, IntegerStart(t, i), b, 0.0) == Natural(w) as real
  {
    DigitsAlone(t, p, w);
    if w != "" {
      OneDigit(t, p, w);
      if w[0] == '0' {
        AfterZero(w, t, p, b);
      } else {
        DigitsRun(t, p, w);
      }
    }
  }

  lemma WholeEndsThere(n: NumberText, t: string, i: nat, p: nat, b: nat, f: nat, e: nat)
    requires Read(n, t, i, p, b, f, e)
    ensures i <= |t| && (At(t, i) == '-' <==> n.minus) && (n.minus || IsDigit(At(t, i)))
    ensures IntegerEnd(t, i) == b
    ensures Accumulate(t, IntegerStart(t, i), b, 0.0) == Natural(n.whole) as real
  {
    SignIs(n, t, i, p, b, f, e);
    BehindWhole(n, t, i, p, b, f, e);
    WholeIs(n.whole, t, i, p, b);
  }

  lemma MantissaIs(n: NumberText, t: string, i: nat, p: nat, b: nat, f: nat, e: nat)
    requires Read(n, t, i, p, b, f, e)
    ensures AllDigits(n.whole + n.fraction) && Mantissa(t, i) == Natural(n.whole + n.fraction) as real
    ensures Scale(t, i) == ExponentNumber(n.exponent) - |n.fraction|
  {
    WholeEndsThere(n, t, i, p, b, f, e);
    FractionEndsThere(n, t, i, p, b, f, e);
    ExponentStarts(n, t, i, p, b, f, e);
    if n.fraction != "" {
      DigitsAdd(t, b + 1, n.whole, n.fraction);
    } else {
      assert n.whole + n.fraction == n.whole;
    }
    if n.exponent.Exponent? {
      ExponentEndsThere(n, t, i, p, b, f, e);
    }
  }

  lemma SignedProduct(minus: bool, m: int, q: real)
    ensures (if minus then -1.0 else 1.0) * m as real * q == (if minus then -m else m) as real * q
  {
  }

  lemma SignedIs(minus: bool, m: int, k: int) returns (x: real)
    ensures x == (if minus then -1.0 else 1.0) * m as real * Power10(k)
    ensures x == Scaled(if minus then -m else m, k)
  {
    x := (if minus then -1.0 else 1.0) * m as real * Power10(k);
    SignedProduct(minus, m, Power10(k));
    ScaledIs(if minus then -m else m, k);
  }

  lemma ValueParts(t: string, i: nat, minus: bool, m: int, k: int, x: real)
    requires i <= |t| && minus == (At(t, i) == '-') && Mantissa(t, i) == m as real && Scale(t, i) == k
    requires x == (if minus then -1.0 else 1.0) * m as real * Power10(k)
    ensures NumberValue(t, i) == x
  {
  }

  lemma MeaningParts(n: NumberText, m: int, k: int, x: real)
    requires AllowedNumber(n) && AllDigits(n.whole + n.fraction) && m == Natural(n.whole + n.fraction)
    requires k == ExponentNumber(n.exponent) - |n.fraction| && x == Scaled(if n.minus then -m else m, k)
    ensures NumberMeaning(n) == x
  {
  }

  lemma EndIs(n: NumberText, t: string, i: nat, p: nat, b: nat, f: nat, e: nat)
    requires Read(n, t, i, p, b, f, e) && i <= |t|
    ensures NumberEnd(t, i) == e
  {
    WholeEndsThere(n, t, i, p, b, f, e);
    FractionEndsThere(n, t, i, p, b, f, e);
    ExponentStarts(n, t, i, p, b, f, e);
    if n.exponent.Exponent? {
      ExponentEndsThere(n, t, i, p, b, f, e);
    }
  }

  lemma ValueIs(n: NumberText, t: string, i: nat, m: int, k: int)
    requires AllowedNumber(n) && AllDigits(n.whole + n.fraction) && m == Natural(n.whole + n.fraction)
    requires k == ExponentNumber(n.exponent) - |n.fraction|
    requires i <= |t| && (At(t, i) == '-' <==> n.minus) && Mantissa(t, i) == m as real && Scale(t, i) == k
    ensures NumberValue(t, i) == NumberMeaning(n)
  {
    var x := SignedIs(n.minus, m, k);
    ValueParts(t, i, n.minus, m, k, x);
    MeaningParts(n, m, k, x);
  }

  lemma ReadIsRead(n: NumberText, t: string, i: nat, p: nat, b: nat, f: nat, e: nat)
    requires Read(n, t, i, p, b, f, e)
    ensures i <= |t| && (At(t, i) == '-' || IsDigit(At(t, i)))
    ensures NumberEnd(t, i) == e && NumberValue(t, i) == NumberMeaning(n)
  {
    WholeEndsThere(n, t, i, p, b, f, e);
    EndIs(n, t, i, p, b, f, e);
    MantissaIs(n, t, i, p, b, f, e);
    ValueIs(n, t, i, Natural(n.whole + n.fraction), ExponentNumber(n.exponent) - |n.fraction|);
  }

  /** A number of the grammar that nothing behind it continues is read to its end. */
  lemma {:induction false} NumberReads(n: NumberText, t: string, i: nat)
    requires AllowedNumber(n) && Has(t, i, NumberString(n))
    requires var e := i + |NumberString(n)|; !GoesOn(n, At(t, e), Next(t, e))
    ensures At(t, i) == '-' || IsDigit(At(t, i))
    ensures NumberEnd(t, i) == i + |NumberString(n)| && NumberValue(t, i) == NumberMeaning(n)
  {
    var p, b, f, e := PartsStand(n, t, i);
    ReadIsRead(n, t, i, p, b, f, e);
  }

  // ----- and whatever is read as a number is one -----

  lemma SliceStands(t: string, i: nat, j: nat)
    requires i <= j <= |t|
    ensures Has(t, i, t[i..j]) && |t[i..j]| == j - i
  {
  }

  lemma RunSlice(t: string, i: nat, j: nat)
    requires i <= j <= |t| && forall x :: i <= x < j ==> IsDigit(t[x])
    ensures AllDigits(t[i..j])
  {
  }

  lemma WholeOf(t: string, i: nat, p: nat, b: nat) returns (w: string)
    requires NumberStarts(t, i) && p == (if t[i] == '-' then i + 1 else i) && b == IntegerEnd(t, i)
    ensures p <= b && Has(t, p, w) && |w| == b - p && AllowedWhole(w) && (w == "" ==> t[i] == '-')
    ensures !IsDigit(At(t, b)) || (w == "0" && At(t, b) == '0')
  {
    w := t[p..b];
    SliceStands(t, p, b);
    var a := IntegerStart(t, i);
    RunIsDigits(t, a);
    assert a > p ==> t[p] == '0';
    RunSlice(t, p, b);
    assert |w| > 1 ==> w[1] == t[p + 1];
  }

  lemma FractionOf(t: string, b: nat, f: nat) returns (fraction: string)
    requires b <= |t| && f == FractionEnd(t, b)
    ensures Has(t, b, FractionText(fraction)) && |FractionText(fraction)| == f - b && AllDigits(fraction)
    ensures (fraction != "" <==> HasFraction(t, b)) && (fraction != "" ==> !IsDigit(At(t, f)))
  {
    fraction := "";
    if HasFraction(t, b) {
      fraction := t[b + 1..f];
      SliceStands(t, b + 1, f);
      RunIsDigits(t, b + 1);
      RunSlice(t, b + 1, f);
      assert DigitRun(t, b + 1) > b + 1;
      HasChar(t, b, '.');
      HasAppend(t, b, ".", fraction);
    }
  }

  lemma ExponentOf(t: string, f: nat, e: nat) returns (x: Exponent)
    requires f <= |t| && e == if HasExponent(t, f) then DigitRun(t, ExponentStart(t, f)) else f
    ensures Has(t, f, ExponentText(x)) && |ExponentText(x)| == e - f && AllowedExponent(x)
    ensures x.Exponent? <==> HasExponent(t, f)
    ensures x.Exponent? ==>
              !IsDigit(At(t, e)) && (x.sign == "" && x.digits == "" ==> At(t, e) != '+' && At(t, e) != '-')
  {
    x := NoExponent;
    if HasExponent(t, f) {
      var d := ExponentStart(t, f);
      x := Exponent(t[f], t[f + 1..d], t[d..e]);
      SliceStands(t, f + 1, d);
      SliceStands(t, d, e);
      RunIsDigits(t, d);
      RunSlice(t, d, e);
      HasChar(t, f, t[f]);
      HasThree(t, f, [t[f]], x.sign, x.digits);
    }
  }

  lemma PutTogether(n: NumberText, t: string, i: nat, p: nat, b: nat, f: nat, e: nat)
    requires NumberStarts(t, i) && n.minus == (t[i] == '-') && p == (if n.minus then i + 1 else i) && b == p + |n.whole|
    requires Has(t, p, n.whole)
    requires Has(t, b, FractionText(n.fraction)) && f == b + |FractionText(n.fraction)|
    requires Has(t, f, ExponentText(n.exponent)) && e == f + |ExponentText(n.exponent)|
    ensures Has(t, i, NumberString(n)) && e == i + |NumberString(n)|
  {
    if n.minus {
      HasChar(t, i, '-');
    }
    HasFour(t, i, if n.minus then "-" else "", n.whole, FractionText(n.fraction), ExponentText(n.exponent));
  }

  lemma StopsThere(n: NumberText, t: string, b: nat, f: nat, e: nat)
    requires AllowedNumber(n) && b <= f <= e <= |t|
    requires n.exponent.Exponent? ==>
               !IsDigit(At(t, e)) &&
               (n.exponent.sign == "" && n.exponent.digits == "" ==> At(t, e) != '+' && At(t, e) != '-')
    requires n.exponent.NoExponent? ==> e == f && !HasExponent(t, f)
    requires n.exponent.NoExponent? && n.fraction != "" ==> !IsDigit(At(t, f))
    requires n.exponent.NoExponent? && n.fraction == "" ==>
               f == b && !HasFraction(t, b) && (!IsDigit(At(t, b)) || (n.whole == "0" && At(t, b) == '0'))
    ensures !GoesOn(n, At(t, e), Next(t, e))
  {
  }

  lemma PartsOf(t: string, i: nat, p: nat, b: nat, f: nat, e: nat) returns (n: NumberText)
    requires NumberStarts(t, i) && p == (if t[i] == '-' then i + 1 else i) && b == IntegerEnd(t, i)
    requires f == FractionEnd(t, b) && e == if HasExponent(t, f) then DigitRun(t, ExponentStart(t, f)) else f
    ensures AllowedNumber(n) && Has(t, i, NumberString(n)) && e == i + |NumberString(n)| && e <= |t|
    ensures !GoesOn(n, At(t, e), Next(t, e))
  {
    var w := WholeOf(t, i, p, b);
    var fraction := FractionOf(t, b, f);
    var x := ExponentOf(t, f, e);
    n := NumberText(t[i] == '-', w, fraction, x);
    PutTogether(n, t, i, p, b, f, e);
    StopsThere(n, t, b, f, e);
  }

  lemma EndParts(t: string, i: nat, b: nat, f: nat)
    requires i <= |t| && b == IntegerEnd(t, i) && f == FractionEnd(t, b)
    ensures NumberEnd(t, i) == if HasExponent(t, f) then DigitRun(t, ExponentStart(t, f)) else f
  {
  }

  /** The number that was read, as a text of the grammar. */
  lemma {:induction false} NumberIsText(t: string, i: nat) returns (n: NumberText)
    requires NumberStarts(t, i)
    ensures AllowedNumber(n) && Has(t, i, NumberString(n)) && NumberEnd(t, i) == i + |NumberString(n)|
    ensures var e := NumberEnd(t, i); !GoesOn(n, At(t, e), Next(t, e))
    ensures NumberValue(t, i) == NumberMeaning(n)
  {
    var b := IntegerEnd(t, i);
    var f := FractionEnd(t, b);
    EndParts(t, i, b, f);
    n := PartsOf(t, i, if t[i] == '-' then i + 1 else i, b, f, NumberEnd(t, i));
    NumberReads(n, t, i);
  }
}
