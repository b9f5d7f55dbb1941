/**
 Where a number ends when other text comes to stand behind it: which characters
 `parse_number` in `src/cJSON/cJSON.c` would go on with.
 */
module JsonNumberEnds {
  import opened JsonText
  import opened JsonParse

  /** `m` from `k` repeats `t[i..e]`. */
  predicate Repeats(t: string, i: nat, e: nat, m: string, k: nat) {
    i <= e <= |t| && k + (e - i) <= |m| && forall x :: i <= x < e ==> t[x] == m[x - i + k]
  }

  /** `At`, with terminators from the end on. */
  function KeptAt(s: string, x: nat): char {
    if x < |s| then s[x] else '\0'
  }

  predicate NumberStarts(t: string, i: nat) {
    i < |t| && (t[i] == '-' || IsDigit(t[i]))
  }

  /** The number that starts at `i` would be longer if `c` and then `d` stood
      directly behind it: a digit, except behind a lone zero; a sign directly
      behind the exponent's letter; that letter, or a point and a digit, if there
      is none yet. */
  predicate Continues(t: string, i: nat, c: char, d: char)
    requires NumberStarts(t, i)
  {
    var a, b := IntegerStart(t, i), IntegerEnd(t, i);
    var f := FractionEnd(t, b);
    if HasExponent(t, f) then IsDigit(c) || ((c == '+' || c == '-') && NumberEnd(t, i) == f + 1)
    else if HasFraction(t, b) then IsDigit(c) || c == 'e' || c == 'E'
    else
      || c == 'e' || c == 'E' || (c == '.' && IsDigit(d))
      || (IsDigit(c) && (a < b || c != '0' || (a > i && t[a - 1] == '-')))
  }

  lemma {:induction false} SameAt(t: string, i: nat, e: nat, m: string, k: nat, x: nat)
    requires Repeats(t, i, e, m, k) && i <= x < e
    ensures At(m, x - i + k) == At(t, x)
  {
    assert t[x] == m[x - i + k];
  }

  /** A run of digits that ends inside ends at the same place; one that reaches the
      end goes on with what follows there. */
  lemma {:induction false} SameRun(t: string, i: nat, e: nat, m: string, k: nat, x: nat)
    requires Repeats(t, i, e, m, k) && i <= x <= e && DigitRun(t, x) <= e
    ensures DigitRun(m, x - i + k) ==
            if DigitRun(t, x) < e then DigitRun(t, x) - i + k else DigitRun(m, e - i + k)
    decreases e - x
  {
    if x < e {
      SameAt(t, i, e, m, k, x);
      if IsDigit(t[x]) {
        SameRun(t, i, e, m, k, x + 1);
      }
    }
  }

  lemma {:induction false} SameAccumulate(t: string, i: nat, e: nat, m: string, k: nat, x: nat, y: nat, n: real)
    requires Repeats(t, i, e, m, k) && i <= x <= y <= e
    ensures Accumulate(t, x, y, n) == Accumulate(m, x - i + k, y - i + k, n)
    decreases y - x
  {
    if x < y {
      assert t[x] == m[x - i + k];
      SameAccumulate(t, i, e, m, k, x + 1, y, n * 10.0 + DigitValue(t[x]) as real);
    }
  }

  lemma {:induction false} SameAccumulateInt(t: string, i: nat, e: nat, m: string, k: nat, x: nat, y: nat, n: int)
    requires Repeats(t, i, e, m, k) && i <= x <= y <= e
    ensures AccumulateInt(t, x, y, n) == AccumulateInt(m, x - i + k, y - i + k, n)
    decreases y - x
  {
    if x < y {
      assert t[x] == m[x - i + k];
      SameAccumulateInt(t, i, e, m, k, x + 1, y, n * 10 + DigitValue(t[x]));
    }
  }

  lemma {:induction false} RunIsDigits(t: string, i: nat)
    requires i <= |t|
    ensures forall x :: i <= x < DigitRun(t, i) ==> IsDigit(t[x])
    decreases |t| - i
  {
    if IsDigit(At(t, i)) {
      RunIsDigits(t, i + 1);
    }
  }

  // ----- the parts of the number -----

  /** Where the integer part ends before the number does, it ends at the same place. */
  lemma {:induction false} SameInteger(t: string, i: nat, e: nat, m: string, k: nat)
    requires Repeats(t, i, e, m, k) && NumberStarts(t, i) && IntegerEnd(t, i) < e
    ensures IntegerStart(m, k) == IntegerStart(t, i) - i + k && IntegerEnd(m, k) == IntegerEnd(t, i) - i + k
  {
    SameAt(t, i, e, m, k, i);
    var p := if At(t, i) == '-' then i + 1 else i;
    SameAt(t, i, e, m, k, p);
    var a := IntegerStart(t, i);
    SameAt(t, i, e, m, k, a);
    if '1' <= At(t, a) <= '9' {
      SameRun(t, i, e, m, k, a);
    }
  }

  /** The same value from the same parts. */
  lemma {:induction false} SameMantissa(t: string, i: nat, e: nat, m: string, k: nat)
    requires Repeats(t, i, e, m, k) && i < e
    requires IntegerStart(m, k) == IntegerStart(t, i) - i + k && IntegerEnd(m, k) == IntegerEnd(t, i) - i + k
    requires HasFraction(m, IntegerEnd(m, k)) == HasFraction(t, IntegerEnd(t, i))
    requires FractionEnd(m, IntegerEnd(m, k)) == FractionEnd(t, IntegerEnd(t, i)) - i + k
    requires FractionEnd(t, IntegerEnd(t, i)) <= e
    ensures Mantissa(m, k) == Mantissa(t, i)
    ensures FractionScale(m, IntegerEnd(m, k)) == FractionScale(t, IntegerEnd(t, i))
  {
    var a, b := IntegerStart(t, i), IntegerEnd(t, i);
    SameAccumulate(t, i, e, m, k, a, b, 0.0);
    if HasFraction(t, b) {
      SameAccumulate(t, i, e, m, k, b + 1, FractionEnd(t, b), Accumulate(t, a, b, 0.0));
    }
  }

  // ----- a number with an exponent -----

  lemma {:induction false} ExponentPrefix(t: string, i: nat, e: nat, m: string, k: nat)
    requires Repeats(t, i, e, m, k) && NumberStarts(t, i)
    requires FractionEnd(t, IntegerEnd(t, i)) < e && HasExponent(t, FractionEnd(t, IntegerEnd(t, i)))
    ensures IntegerStart(m, k) == IntegerStart(t, i) - i + k && IntegerEnd(m, k) == IntegerEnd(t, i) - i + k
    ensures HasFraction(m, IntegerEnd(m, k)) == HasFraction(t, IntegerEnd(t, i))
    ensures FractionEnd(m, IntegerEnd(m, k)) == FractionEnd(t, IntegerEnd(t, i)) - i + k
    ensures HasExponent(m, FractionEnd(m, IntegerEnd(m, k)))
  {
    var b := IntegerEnd(t, i);
    var f := FractionEnd(t, b);
    SameInteger(t, i, e, m, k);
    SameAt(t, i, e, m, k, b);
    SameAt(t, i, e, m, k, f);
    if HasFraction(t, b) {
      SameAt(t, i, e, m, k, b + 1);
      SameRun(t, i, e, m, k, b + 1);
    }
  }

  lemma {:induction false} ExponentEnds(t: string, i: nat, e: nat, m: string, k: nat, f: nat)
    requires Repeats(t, i, e, m, k) && i <= f < e && HasExponent(t, f) && e == DigitRun(t, ExponentStart(t, f))
    requires k + (e - i) <= |m| && HasExponent(m, f - i + k)
    ensures var c := At(m, k + (e - i));
            var longer := IsDigit(c) || ((c == '+' || c == '-') && e == f + 1);
            var end := DigitRun(m, ExponentStart(m, f - i + k));
            if longer then end > k + (e - i)
            else end == k + (e - i) && ExponentValue(m, f - i + k) == ExponentValue(t, f)
  {
    var d := ExponentStart(t, f);
    if f + 1 < e {
      SameAt(t, i, e, m, k, f + 1);
      SameRun(t, i, e, m, k, d);
      SameAccumulateInt(t, i, e, m, k, d, e, 0);
    }
  }

  lemma {:induction false} WithExponent(t: string, i: nat, e: nat, m: string, k: nat)
    requires Repeats(t, i, e, m, k) && NumberStarts(t, i) && e == NumberEnd(t, i)
    requires HasExponent(t, FractionEnd(t, IntegerEnd(t, i)))
    ensures var c := At(m, k + (e - i));
            if Continues(t, i, c, '\0') then NumberEnd(m, k) > k + (e - i)
            else NumberEnd(m, k) == k + (e - i) && NumberValue(m, k) == NumberValue(t, i)
  {
    var f := FractionEnd(t, IntegerEnd(t, i));
    assert f < ExponentStart(t, f) <= e;
    ExponentPrefix(t, i, e, m, k);
    ExponentEnds(t, i, e, m, k, f);
    SameMantissa(t, i, e, m, k);
    SameAt(t, i, e, m, k, i);
  }

  // ----- a number with a fraction and no exponent -----

  lemma {:induction false} WithFraction(t: string, i: nat, e: nat, m: string, k: nat)
    requires Repeats(t, i, e, m, k) && NumberStarts(t, i) && e == NumberEnd(t, i)
    requires HasFraction(t, IntegerEnd(t, i)) && !HasExponent(t, FractionEnd(t, IntegerEnd(t, i)))
    ensures var c := At(m, k + (e - i));
            if Continues(t, i, c, '\0') then NumberEnd(m, k) > k + (e - i)
            else NumberEnd(m, k) == k + (e - i) && NumberValue(m, k) == NumberValue(t, i)
  {
    var b := IntegerEnd(t, i);
    SameInteger(t, i, e, m, k);
    SameAt(t, i, e, m, k, b);
    SameAt(t, i, e, m, k, b + 1);
    SameRun(t, i, e, m, k, b + 1);
    SameAt(t, i, e, m, k, i);
    if !IsDigit(At(m, k + (e - i))) {
      SameMantissa(t, i, e, m, k);
    }
  }

  // ----- a number with neither -----

  lemma {:induction false} SameSign(t: string, i: nat, e: nat, m: string, k: nat)
    requires Repeats(t, i, e, m, k) && NumberStarts(t, i) && e == IntegerEnd(t, i)
    ensures k < |m| && m[k] == t[i]
    ensures IntegerStart(t, i) < e ==> IntegerStart(m, k) == IntegerStart(t, i) - i + k
    ensures IntegerStart(t, i) == e ==>
              IntegerStart(m, k) ==
              if t[e - 1] == '-' && At(m, k + (e - i)) == '0' then k + (e - i) + 1 else k + (e - i)
  {
    SameAt(t, i, e, m, k, i);
    if At(t, i) == '-' && i + 1 < e {
      SameAt(t, i, e, m, k, i + 1);
    }
  }

  lemma {:induction false} IntegerEnds(t: string, i: nat, e: nat, m: string, k: nat)
    requires Repeats(t, i, e, m, k) && NumberStarts(t, i) && e == IntegerEnd(t, i)
    ensures var c := At(m, k + (e - i));
            var longer := IsDigit(c) && (IntegerStart(t, i) < e || c != '0' || t[e - 1] == '-');
            if longer then IntegerEnd(m, k) > k + (e - i)
            else IntegerEnd(m, k) == k + (e - i) && IntegerStart(m, k) == IntegerStart(t, i) - i + k
  {
    SameSign(t, i, e, m, k);
    var a := IntegerStart(t, i);
    if a < e {
      SameAt(t, i, e, m, k, a);
      SameRun(t, i, e, m, k, a);
    }
  }

  lemma {:induction false} WithNeither(t: string, i: nat, e: nat, m: string, k: nat)
    requires Repeats(t, i, e, m, k) && NumberStarts(t, i) && e == NumberEnd(t, i)
    requires !HasFraction(t, IntegerEnd(t, i)) && !HasExponent(t, FractionEnd(t, IntegerEnd(t, i)))
    ensures var c, d := KeptAt(m, k + (e - i)), KeptAt(m, k + (e - i) + 1);
            if Continues(t, i, c, d) then NumberEnd(m, k) > k + (e - i)
            else NumberEnd(m, k) == k + (e - i) && NumberValue(m, k) == NumberValue(t, i)
  {
    IntegerEnds(t, i, e, m, k);
    SameSign(t, i, e, m, k);
    var c, d := KeptAt(m, k + (e - i)), KeptAt(m, k + (e - i) + 1);
    if !Continues(t, i, c, d) {
      SameMantissa(t, i, e, m, k);
    }
  }

  /** A number repeated elsewhere is longer there if the characters behind it
      continue it; otherwise it ends at the same place and is the same. */
  lemma {:induction false} NumberContinues(t: string, i: nat, e: nat, m: string, k: nat)
    requires Repeats(t, i, e, m, k) && NumberStarts(t, i) && e == NumberEnd(t, i)
    ensures var c, d := KeptAt(m, k + (e - i)), KeptAt(m, k + (e - i) + 1);
            if Continues(t, i, c, d) then NumberEnd(m, k) > k + (e - i)
            else NumberEnd(m, k) == k + (e - i) && NumberValue(m, k) == NumberValue(t, i)
  {
    if HasExponent(t, FractionEnd(t, IntegerEnd(t, i))) {
      WithExponent(t, i, e, m, k);
    } else if HasFraction(t, IntegerEnd(t, i)) {
      WithFraction(t, i, e, m, k);
    } else {
      WithNeither(t, i, e, m, k);
    }
  }
}
