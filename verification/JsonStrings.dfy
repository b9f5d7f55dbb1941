/**
 What `parse_string` makes of a string literal, against RFC 8259 section 7:
 its two passes, its UTF-8 and its treatment of surrogates.
 */
module JsonStrings {
  import opened JsonText
  import opened JsonParse

  // ----- the two passes -----

  /** Where the counting pass stops; it steps over whatever follows a backslash. */
  function CountEnd(t: string, i: nat): (j: nat)
    requires i <= |t|
    ensures i <= j <= |t|
    decreases |t| - i
  {
    if EndsString(At(t, i)) then i
    else if t[i] == '\\' && i + 1 < |t| then CountEnd(t, i + 2)
    else CountEnd(t, i + 1)
  }

  /** The size it counts. */
  function CountSize(t: string, i: nat): nat
    requires i <= |t|
    decreases |t| - i
  {
    if EndsString(At(t, i)) then 0
    else if t[i] == '\\' && i + 1 < |t| then 1 + CountSize(t, i + 2)
    else 1 + CountSize(t, i + 1)
  }

  /** `n` characters that are no quote, backslash or terminator count `n`. */
  lemma {:induction false} CountOrdinary(t: string, i: nat, n: nat)
    requires i + n <= |t|
    requires forall k :: i <= k < i + n ==> !EndsString(t[k]) && t[k] != '\\'
    ensures CountEnd(t, i) == CountEnd(t, i + n) && CountSize(t, i) == n + CountSize(t, i + n)
    decreases n
  {
    if n > 0 {
      CountOrdinary(t, i + 1, n - 1);
    }
  }

  lemma CountUnicode(t: string, i: nat)
    requires i + 6 <= |t| && t[i] == '\\' && t[i + 1] == 'u' && FourHex(t, i + 2)
    ensures CountEnd(t, i) == CountEnd(t, i + 6) && CountSize(t, i) == 5 + CountSize(t, i + 6)
  {
    CountOrdinary(t, i + 2, 4);
  }

  lemma CountEscape(t: string, i: nat)
    requires i < |t| && t[i] == '\\' && EscapeAt(t, i).Emit?
    ensures CountEnd(t, i) == CountEnd(t, EscapeAt(t, i).next)
    ensures |EscapeAt(t, i).text| + CountSize(t, EscapeAt(t, i).next) <= CountSize(t, i)
  {
    if t[i + 1] == 'u' {
      CountUnicode(t, i);
      if EscapeAt(t, i).next == i + 12 {
        CountUnicode(t, i + 6);
      }
    }
  }

  /** Both passes stop at the same place, and the text fits the size counted. */
  lemma {:induction false} PassesAgree(t: string, i: nat)
    requires i <= |t| && Unescape(t, i).Text?
    ensures CountEnd(t, i) == Unescape(t, i).end
    ensures |Unescape(t, i).text| <= CountSize(t, i)
    decreases |t| - i
  {
    if !EndsString(At(t, i)) {
      if t[i] == '\\' {
        CountEscape(t, i);
        PassesAgree(t, EscapeAt(t, i).next);
      } else {
        PassesAgree(t, i + 1);
      }
    }
  }

  // ----- UTF-8 -----

  predicate IsTrail(c: char) {
    0x80 <= c as int <= 0xBF
  }

  function Low6(c: char): int {
    c as int - 0x80
  }

  /** The number a UTF-8 sequence of section 3 of RFC 3629 encodes. */
  function FromUtf8(s: string): int
    requires |s| > 0
  {
    var b := s[0] as int;
    if |s| == 1 then b
    else if |s| == 2 then (b - 0xC0) * 0x40 + Low6(s[1])
    else if |s| == 3 then (b - 0xE0) * 0x1000 + Low6(s[1]) * 0x40 + Low6(s[2])
    else if |s| == 4 then (b - 0xF0) * 0x40000 + Low6(s[1]) * 0x1000 + Low6(s[2]) * 0x40 + Low6(s[3])
    else -1
  }

  /** The rows of that section's table, shortest form only. */
  predicate IsUtf8(s: string) {
    || (|s| == 1 && s[0] as int < 0x80)
    || (|s| == 2 && 0xC2 <= s[0] as int <= 0xDF && IsTrail(s[1]))
    || (|s| == 3 && 0xE0 <= s[0] as int <= 0xEF && IsTrail(s[1]) && IsTrail(s[2]) && FromUtf8(s) >= 0x800)
    || (|s| == 4 && 0xF0 <= s[0] as int <= 0xF4 && IsTrail(s[1]) && IsTrail(s[2]) && IsTrail(s[3])
        && 0x10000 <= FromUtf8(s) < 0x110000)
  }

  lemma Utf8IsUtf8(u: nat)
    requires u < 0x110000
    ensures IsUtf8(Utf8(u)) && FromUtf8(Utf8(u)) == u
  {
    Split(u);
  }

  lemma Split(u: nat)
    ensures u / 0x1000 == u / 0x40 / 0x40 && u / 0x40000 == u / 0x1000 / 0x40
  {
  }

  lemma Join(q: nat, r: nat)
    requires r < 0x40
    ensures (q * 0x40 + r) / 0x40 == q && (q * 0x40 + r) % 0x40 == r
  {
  }

  lemma TwoUnique(u: nat, s: string)
    requires |s| == 2 && IsUtf8(s) && FromUtf8(s) == u
    ensures s == Utf8(u)
  {
    Join(s[0] as int - 0xC0, Low6(s[1]));
  }

  lemma ThreeUnique(u: nat, s: string)
    requires |s| == 3 && IsUtf8(s) && FromUtf8(s) == u
    ensures s == Utf8(u)
  {
    var q := (s[0] as int - 0xE0) * 0x40 + Low6(s[1]);
    Split(u);
    assert u == q * 0x40 + Low6(s[2]);
    Join(q, Low6(s[2]));
    Join(s[0] as int - 0xE0, Low6(s[1]));
  }

  lemma FourUnique(u: nat, s: string)
    requires |s| == 4 && IsUtf8(s) && FromUtf8(s) == u
    ensures s == Utf8(u)
  {
    var q := (s[0] as int - 0xF0) * 0x40 + Low6(s[1]);
    var r := q * 0x40 + Low6(s[2]);
    Split(u);
    assert u == r * 0x40 + Low6(s[3]);
    Join(r, Low6(s[3]));
    Join(q, Low6(s[2]));
    Join(s[0] as int - 0xF0, Low6(s[1]));
  }

  /** What is written is the one well-formed UTF-8 sequence for the code point. */
  lemma {:induction false} Utf8Encodes(u: nat, s: string)
    requires u < 0x110000
    ensures IsUtf8(s) && FromUtf8(s) == u <==> s == Utf8(u)
  {
    Utf8IsUtf8(u);
    if IsUtf8(s) && FromUtf8(s) == u {
      if |s| == 2 {
        TwoUnique(u, s);
      } else if |s| == 3 {
        ThreeUnique(u, s);
      } else if |s| == 4 {
        FourUnique(u, s);
      }
    }
  }

  // ----- surrogates -----

  /** A string body as RFC 8259 sees it: characters and UTF-16 code units. */
  type CodeUnit = u: nat | u < 0x10000

  datatype Unit = Raw(c: char) | Code(u: CodeUnit)

  datatype UnitsOutcome = Units(units: seq<Unit>, end: nat) | BadUnits

  function PrependUnit(x: Unit, r: UnitsOutcome): UnitsOutcome {
    match r
    case Units(rest, end) => Units([x] + rest, end)
    case BadUnits => BadUnits
  }

  function ReadUnits(t: string, i: nat): UnitsOutcome
    requires i <= |t|
    decreases |t| - i
  {
    if EndsString(At(t, i)) then Units([], i)
    else if t[i] != '\\' then PrependUnit(Raw(t[i]), ReadUnits(t, i + 1))
    else if At(t, i + 1) == 'u' then
      if FourHex(t, i + 2) then PrependUnit(Code(Hex4(t, i + 2)), ReadUnits(t, i + 6)) else BadUnits
    else
      match EscapeAt(t, i)
      case Bad => BadUnits
      case Emit(s, next) => if |s| == 1 then PrependUnit(Raw(s[0]), ReadUnits(t, next)) else BadUnits
  }

  predicate StartsLow(units: seq<Unit>) {
    units != [] && units[0].Code? && IsLow(units[0].u)
  }

  /** What a unit standing alone adds. */
  function OneUnit(x: Unit): string {
    match x
    case Raw(c) => [c]
    case Code(u) => if u == 0 || IsLow(u) || IsHigh(u) then "" else Utf8(u)
  }

  predicate PairHere(units: seq<Unit>) {
    units != [] && units[0].Code? && IsHigh(units[0].u) && StartsLow(units[1..])
  }

  /** The text with pairs combined and zero and unpaired surrogates left out. */
  function Ideal(units: seq<Unit>): string
    decreases |units|
  {
    if units == [] then ""
    else if PairHere(units) then Utf8(Combine(units[0].u, units[1].u)) + Ideal(units[2..])
    else OneUnit(units[0]) + Ideal(units[1..])
  }

  predicate HighThenOther(units: seq<Unit>) {
    |units| >= 2 && units[0].Code? && IsHigh(units[0].u) && units[1].Code? && !IsLow(units[1].u)
  }

  /** The text the source produces: a unit that follows an unpaired high surrogate
      is passed over with it. */
  function AsWritten(units: seq<Unit>): string
    decreases |units|
  {
    if units == [] then ""
    else if PairHere(units) then Utf8(Combine(units[0].u, units[1].u)) + AsWritten(units[2..])
    else if HighThenOther(units) then AsWritten(units[2..])
    else OneUnit(units[0]) + AsWritten(units[1..])
  }

  /** Every unit passed over that way would have added nothing by itself. */
  predicate Lossless(units: seq<Unit>)
    decreases |units|
  {
    if units == [] then true
    else if PairHere(units) then Lossless(units[2..])
    else if HighThenOther(units) then
      (units[1].u == 0 || (IsHigh(units[1].u) && !StartsLow(units[2..]))) && Lossless(units[2..])
    else Lossless(units[1..])
  }

  lemma AsWrittenPlain(x: Unit, rest: seq<Unit>)
    requires x.Raw? || !IsHigh(x.u) || rest == [] || rest[0].Raw?
    ensures AsWritten([x] + rest) == OneUnit(x) + AsWritten(rest)
  {
    assert ([x] + rest)[1..] == rest;
  }

  lemma AsWrittenPair(u: CodeUnit, v: CodeUnit, rest: seq<Unit>)
    requires IsHigh(u)
    ensures AsWritten([Code(u), Code(v)] + rest) ==
            (if IsLow(v) then Utf8(Combine(u, v)) else "") + AsWritten(rest)
  {
    var all := [Code(u), Code(v)] + rest;
    assert all[2..] == rest;
    assert all[1..][0] == Code(v);
    assert "" + AsWritten(rest) == AsWritten(rest);
  }

  /** What the units from a position on start with. */
  lemma FirstUnit(t: string, i: nat)
    requires i <= |t| && ReadUnits(t, i).Units?
    ensures var us := ReadUnits(t, i).units;
            if i < |t| && t[i] == '\\' && At(t, i + 1) == 'u' then
              && FourHex(t, i + 2) && ReadUnits(t, i + 6).Units?
              && us == [Code(Hex4(t, i + 2))] + ReadUnits(t, i + 6).units
            else us == [] || us[0].Raw?
  {
  }

  /** Reading with pairs combined, as the source does it, gives `AsWritten`. */
  ghost predicate Agrees(t: string, i: nat)
    requires i <= |t|
  {
    && (Unescape(t, i).Text? <==> ReadUnits(t, i).Units?)
    && (ReadUnits(t, i).Units? ==>
          Unescape(t, i) == Text(AsWritten(ReadUnits(t, i).units), ReadUnits(t, i).end))
  }

  lemma AgreesAfterPlain(t: string, i: nat, x: Unit, next: nat)
    requires i < next <= |t| && Agrees(t, next) && x.Raw?
    requires Unescape(t, i) == Prepend([x.c], Unescape(t, next))
    requires ReadUnits(t, i) == PrependUnit(x, ReadUnits(t, next))
    ensures Agrees(t, i)
  {
    if ReadUnits(t, next).Units? {
      AsWrittenPlain(x, ReadUnits(t, next).units);
    }
  }

  lemma AgreesAfterCode(t: string, i: nat)
    requires i < |t| && t[i] == '\\' && At(t, i + 1) == 'u' && FourHex(t, i + 2)
    requires !IsHigh(Hex4(t, i + 2)) || At(t, i + 6) != '\\' || At(t, i + 7) != 'u'
    requires Agrees(t, i + 6)
    ensures Agrees(t, i)
  {
    var x, r := Code(Hex4(t, i + 2)), ReadUnits(t, i + 6);
    assert UnicodeEscape(t, i) == Emit(OneUnit(x), i + 6);
    assert ReadUnits(t, i) == PrependUnit(x, r);
    if r.Units? {
      FirstUnit(t, i + 6);
      AsWrittenPlain(x, r.units);
    }
  }

  lemma AgreesAfterPair(t: string, i: nat)
    requires i < |t| && t[i] == '\\' && At(t, i + 1) == 'u' && FourHex(t, i + 2) && IsHigh(Hex4(t, i + 2))
    requires At(t, i + 6) == '\\' && At(t, i + 7) == 'u'
    requires FourHex(t, i + 8) ==> Agrees(t, i + 12)
    ensures Agrees(t, i)
  {
    var u, r := Hex4(t, i + 2), ReadUnits(t, i + 6);
    assert ReadUnits(t, i) == PrependUnit(Code(u), r);
    if FourHex(t, i + 8) {
      var v, rest := Hex4(t, i + 8), ReadUnits(t, i + 12);
      assert r == PrependUnit(Code(v), rest);
      assert UnicodeEscape(t, i) == Emit(if IsLow(v) then Utf8(Combine(u, v)) else "", i + 12);
      if rest.Units? {
        assert ReadUnits(t, i).units == [Code(u), Code(v)] + rest.units;
        AsWrittenPair(u, v, rest.units);
      }
    }
  }

  lemma {:induction false} UnescapeIsAsWritten(t: string, i: nat)
    requires i <= |t|
    ensures Agrees(t, i)
    decreases |t| - i
  {
    if EndsString(At(t, i)) {
    } else if t[i] != '\\' {
      UnescapeIsAsWritten(t, i + 1);
      AgreesAfterPlain(t, i, Raw(t[i]), i + 1);
    } else if At(t, i + 1) != 'u' {
      match EscapeAt(t, i)
      case Bad =>
      case Emit(s, next) =>
        UnescapeIsAsWritten(t, next);
        AgreesAfterPlain(t, i, Raw(s[0]), next);
    } else if FourHex(t, i + 2) {
      if IsHigh(Hex4(t, i + 2)) && At(t, i + 6) == '\\' && At(t, i + 7) == 'u' {
        if FourHex(t, i + 8) {
          UnescapeIsAsWritten(t, i + 12);
        }
        AgreesAfterPair(t, i);
      } else {
        UnescapeIsAsWritten(t, i + 6);
        AgreesAfterCode(t, i);
      }
    }
  }

  // ----- exactly when that is the ideal text -----

  lemma {:induction false} IdealIsLonger(units: seq<Unit>)
    ensures |AsWritten(units)| <= |Ideal(units)|
    ensures Lossless(units) ==> AsWritten(units) == Ideal(units)
    ensures !Lossless(units) ==> |AsWritten(units)| < |Ideal(units)|
    decreases |units|
  {
    if units == [] {
    } else if PairHere(units) {
      IdealIsLonger(units[2..]);
    } else if HighThenOther(units) {
      IdealIsLonger(units[2..]);
      LoneHigh(units);
    } else {
      IdealIsLonger(units[1..]);
    }
  }

  /** After an unpaired high surrogate, what the next unit would have added is lost. */
  lemma LoneHigh(units: seq<Unit>)
    requires HighThenOther(units)
    ensures var v, rest := units[1].u, units[2..];
            if v == 0 || (IsHigh(v) && !StartsLow(rest)) then Ideal(units) == Ideal(rest)
            else |Ideal(units)| > |Ideal(rest)|
  {
    var v, rest := units[1].u, units[2..];
    assert units[1..][1..] == rest;
    assert Ideal(units) == "" + Ideal(units[1..]) == Ideal(units[1..]);
    if IsHigh(v) && StartsLow(rest) {
      assert PairHere(units[1..]) && units[1..][2..] == rest[1..];
      assert Ideal(rest) == OneUnit(rest[0]) + Ideal(rest[1..]) == Ideal(rest[1..]);
    } else {
      assert Ideal(units[1..]) == OneUnit(units[1]) + Ideal(rest);
      assert "" + Ideal(rest) == Ideal(rest);
    }
  }

  /** A string literal is read with pairs combined and zero and unpaired surrogates
      left out if and only if nothing that follows an unpaired high surrogate as an
      escape of its own would have added anything. */
  lemma UnescapeIsIdeal(t: string, i: nat)
    requires i <= |t| && ReadUnits(t, i).Units?
    ensures Unescape(t, i).Text? && Unescape(t, i).end == ReadUnits(t, i).end
    ensures Unescape(t, i).text == Ideal(ReadUnits(t, i).units) <==> Lossless(ReadUnits(t, i).units)
  {
    UnescapeIsAsWritten(t, i);
    IdealIsLonger(ReadUnits(t, i).units);
  }

  /** An input on which it is not: the letter after a lone high surrogate is lost. */
  lemma {:induction false} LetterIsLost()
    ensures ReadUnits("\\ud800\\u0041", 0) == Units([Code(0xD800), Code(0x41)], 12)
    ensures Unescape("\\ud800\\u0041", 0) == Text("", 12) && Ideal([Code(0xD800), Code(0x41)]) == "A"
  {
    var t := "\\ud800\\u0041";
    assert ReadUnits(t, 12) == Units([], 12);
    assert ReadUnits(t, 6) == PrependUnit(Code(0x41), Units([], 12));
    assert ReadUnits(t, 0) == PrependUnit(Code(0xD800), Units([Code(0x41)], 12));
    assert Unescape(t, 12) == Text("", 12);
    var us := [Code(0xD800), Code(0x41)];
    assert us[1..] == [Code(0x41)] && us[1..][1..] == [];
    assert Ideal(us[1..]) == Utf8(0x41) + "";
    assert Ideal(us) == "" + Ideal(us[1..]);
  }
}
