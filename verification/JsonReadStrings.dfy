/**
 String literals: `\u` escapes and surrogate pairs against RFC 2781 and RFC 3629, and
 what `parse_string` reads of every string of the grammar.
 */
module JsonReadStrings {
  import opened JsonText
  import opened JsonParse
  import opened JsonStrings
  import opened JsonSyntax

  // ----- surrogate pairs -----

  /** The pair for a code point, section 2.1 of RFC 2781. */
  predicate IsPairOf(u: nat, high: nat, low: nat) {
    && 0x10000 <= u < 0x110000
    && high == 0xD800 + (u - 0x10000) / 0x400 && low == 0xDC00 + (u - 0x10000) % 0x400
  }

  lemma JoinPair(h: nat, l: nat)
    requires l < 0x400
    ensures (h * 0x400 + l) / 0x400 == h && (h * 0x400 + l) % 0x400 == l
  {
  }

  /** The pair of a code point combines to it, and no other pair does. */
  lemma {:induction false} PairExactlyWhen(u: nat, high: nat, low: nat)
    ensures IsHigh(high) && IsLow(low) && Combine(high, low) == u <==> IsPairOf(u, high, low)
  {
    if IsHigh(high) && IsLow(low) && Combine(high, low) == u {
      var h, l := high - 0xD800, low - 0xDC00;
      assert high % 0x400 == h && low % 0x400 == l;
      JoinPair(h, l);
    }
    if IsPairOf(u, high, low) {
      var v := u - 0x10000;
      assert v == v / 0x400 * 0x400 + v % 0x400;
      assert (0xD800 + v / 0x400) % 0x400 == v / 0x400;
      assert (0xDC00 + v % 0x400) % 0x400 == v % 0x400;
    }
  }

  /** A high and a low surrogate are always the pair of a code point. */
  lemma {:induction false} SurrogatesPair(high: nat, low: nat)
    ensures IsHigh(high) && IsLow(low) <==> exists u :: IsPairOf(u, high, low)
  {
    if IsHigh(high) && IsLow(low) {
      PairExactlyWhen(Combine(high, low), high, low);
    }
    if u :| IsPairOf(u, high, low) {
      PairExactlyWhen(u, high, low);
    }
  }

  // ----- hexadecimal digits -----

  lemma HexDigitIs(c: char, d: nat)
    requires d < 16
    ensures IsHexDigit(c, d) <==> IsHex(c) && HexValue(c) == d
  {
    var lower, upper := "0123456789abcdef", "0123456789ABCDEF";
    assert lower[d] == if d < 10 then ('0' as int + d) as char else ('a' as int + (d - 10)) as char;
    assert upper[d] == if d < 10 then ('0' as int + d) as char else ('A' as int + (d - 10)) as char;
  }

  lemma TwoDigits(u: nat, a: nat, b: nat)
    requires b < 16
    ensures u == 0x10 * a + b <==> a == u / 0x10 && b == u % 0x10
  {
  }

  lemma FourDigits(u: nat, a: nat, b: nat, c: nat, d: nat)
    requires u < 0x10000 && a < 16 && b < 16 && c < 16 && d < 16
    ensures u == 0x1000 * a + 0x100 * b + 0x10 * c + d <==>
            a == u / 0x1000 && b == u / 0x100 % 0x10 && c == u / 0x10 % 0x10 && d == u % 0x10
  {
    var v := u / 0x10;
    var w := v / 0x10;
    assert w == u / 0x100 && w / 0x10 == u / 0x1000;
    TwoDigits(u, 0x100 * a + 0x10 * b + c, d);
    TwoDigits(v, 0x10 * a + b, c);
    TwoDigits(w, a, b);
  }

  /** Four characters are read as a code unit exactly if they spell it. */
  lemma {:induction false} HexExactlyWhen(t: string, i: nat, u: CodeUnit)
    ensures FourHex(t, i) && Hex4(t, i) == u <==> i + 4 <= |t| && Spells(t[i..i + 4], u)
  {
    if i + 4 <= |t| {
      var s := t[i..i + 4];
      HexDigitIs(s[0], u / 0x1000);
      HexDigitIs(s[1], u / 0x100 % 0x10);
      HexDigitIs(s[2], u / 0x10 % 0x10);
      HexDigitIs(s[3], u % 0x10);
      if FourHex(t, i) {
        FourDigits(u, HexValue(t[i]), HexValue(t[i + 1]), HexValue(t[i + 2]), HexValue(t[i + 3]));
      }
      if Spells(s, u) {
        FourDigits(u, u / 0x1000, u / 0x100 % 0x10, u / 0x10 % 0x10, u % 0x10);
      }
    }
  }

  // ----- escapes -----

  /** `\u` and four digits that spell `u` stand there. */
  predicate EscapeFor(t: string, i: nat, u: nat) {
    u < 0x10000 && i + 6 <= |t| && t[i] == '\\' && t[i + 1] == 'u' && Spells(t[i + 2..i + 6], u)
  }

  lemma OneEscape(t: string, i: nat, u: nat)
    requires i + 6 <= |t| && t[i] == '\\' && t[i + 1] == 'u' && FourHex(t, i + 2) && Hex4(t, i + 2) == u
    requires 0 < u && !IsHigh(u) && !IsLow(u)
    ensures EscapeAt(t, i) == Emit(Utf8(u), i + 6)
  {
  }

  /** One escape for a code point below 0x10000 that is neither zero nor a surrogate
      adds the UTF-8 sequence of that code point. */
  lemma {:induction false} EscapeEmits(t: string, i: nat, u: nat)
    requires EscapeFor(t, i, u) && 0 < u && !(0xD800 <= u < 0xE000)
    ensures EscapeAt(t, i).Emit? && EscapeAt(t, i).next == i + 6
    ensures IsUtf8(EscapeAt(t, i).text) && FromUtf8(EscapeAt(t, i).text) == u
  {
    HexExactlyWhen(t, i + 2, u);
    OneEscape(t, i, u);
    Utf8IsUtf8(u);
  }

  lemma TwoEscapes(t: string, i: nat, high: nat, low: nat)
    requires i + 12 <= |t| && t[i] == '\\' && t[i + 1] == 'u' && t[i + 6] == '\\' && t[i + 7] == 'u'
    requires FourHex(t, i + 2) && Hex4(t, i + 2) == high && FourHex(t, i + 8) && Hex4(t, i + 8) == low
    requires IsHigh(high) && IsLow(low)
    ensures EscapeAt(t, i) == Emit(Utf8(Combine(high, low)), i + 12)
  {
  }

  /** Two escapes for the pair of a code point add the UTF-8 sequence of it. */
  lemma {:induction false} PairEmits(t: string, i: nat, u: nat, high: nat, low: nat)
    requires IsPairOf(u, high, low) && EscapeFor(t, i, high) && EscapeFor(t, i + 6, low)
    ensures EscapeAt(t, i).Emit? && EscapeAt(t, i).next == i + 12
    ensures IsUtf8(EscapeAt(t, i).text) && FromUtf8(EscapeAt(t, i).text) == u
  {
    PairExactlyWhen(u, high, low);
    HexExactlyWhen(t, i + 2, high);
    HexExactlyWhen(t, i + 8, low);
    TwoEscapes(t, i, high, low);
    Utf8IsUtf8(u);
  }

  /** A backslash and a character: what the RFC's table says, and otherwise that
      character. */
  lemma {:induction false} ShortEmits(t: string, i: nat)
    requires i + 1 < |t| && t[i] == '\\' && t[i + 1] != 'u' && t[i + 1] != '\0'
    ensures EscapeAt(t, i) == Emit([if t[i + 1] in ESCAPES then EscapedChar(t[i + 1]) else t[i + 1]], i + 2)
  {
  }

  // ----- whole strings -----

  lemma SpelledStands(digits: string, u: CodeUnit, t: string, i: nat)
    requires Spells(digits, u) && Has(t, i, "\\u" + digits)
    ensures i + 6 <= |t| && t[i] == '\\' && t[i + 1] == 'u' && FourHex(t, i + 2) && Hex4(t, i + 2) == u
  {
    HasAppend(t, i, "\\u", digits);
    HasAt(t, i, "\\u", 0);
    HasAt(t, i, "\\u", 1);
    assert t[i + 2..i + 6] == digits;
    HexExactlyWhen(t, i + 2, u);
  }

  lemma {:induction false} PieceStands(p: Piece, t: string, i: nat, e: nat)
    requires AllowedPiece(p) && Has(t, i, PieceString(p)) && e == i + |PieceString(p)| && e <= |t|
    ensures i < |t| && !EndsString(t[i]) && ReadUnits(t, i) == PrependUnit(PieceUnit(p), ReadUnits(t, e))
  {
    HasAt(t, i, PieceString(p), 0);
    match p
    case Plain(c) =>
    case Short(c) =>
      HasAt(t, i, PieceString(p), 1);
      ShortEmits(t, i);
    case Unicode(digits, u) => SpelledStands(digits, u, t, i);
  }

  predicate AllowedPieces(ps: seq<Piece>) {
    forall k :: 0 <= k < |ps| ==> AllowedPiece(ps[k])
  }

  lemma PiecesHead(ps: seq<Piece>, t: string, i: nat, e: nat)
    requires ps != [] && AllowedPieces(ps) && Has(t, i, PiecesString(ps)) && e == i + |PieceString(ps[0])|
    ensures Has(t, i, PieceString(ps[0])) && Has(t, e, PiecesString(ps[1..])) && e <= |t|
    ensures i + |PiecesString(ps)| == e + |PiecesString(ps[1..])|
    ensures AllowedPiece(ps[0]) && AllowedPieces(ps[1..])
  {
    HasAppend(t, i, PieceString(ps[0]), PiecesString(ps[1..]));
  }

  lemma UnitsAfter(t: string, i: nat, x: Unit, e: nat, us: seq<Unit>, end: nat)
    requires i <= |t| && e <= |t| && ReadUnits(t, i) == PrependUnit(x, ReadUnits(t, e))
    requires ReadUnits(t, e) == Units(us, end)
    ensures ReadUnits(t, i) == Units([x] + us, end)
  {
  }

  lemma NoUnits(t: string, i: nat)
    requires i <= |t| && EndsString(At(t, i))
    ensures ReadUnits(t, i) == Units([], i)
  {
  }

  lemma {:induction false} PiecesRead(ps: seq<Piece>, t: string, i: nat, end: nat)
    requires AllowedPieces(ps) && Has(t, i, PiecesString(ps)) && end == i + |PiecesString(ps)| && EndsString(At(t, end))
    ensures ReadUnits(t, i) == Units(PieceUnits(ps), end)
    decreases ps
  {
    if ps == [] {
      NoUnits(t, i);
    } else {
      var e := i + |PieceString(ps[0])|;
      PiecesHead(ps, t, i, e);
      PieceStands(ps[0], t, i, e);
      PiecesRead(ps[1..], t, e, end);
      UnitsAfter(t, i, PieceUnit(ps[0]), e, PieceUnits(ps[1..]), end);
    }
  }

  lemma UnitsInQuotes(t: string, i: nat, us: seq<Unit>, q: nat)
    requires i < |t| && t[i] == '\"' && ReadUnits(t, i + 1) == Units(us, q) && q <= |t|
    ensures ParseString(t, i) == Text(AsWritten(us), if At(t, q) == '\"' then q + 1 else q)
  {
    UnescapeIsAsWritten(t, i + 1);
  }

  lemma QuotedHasUnits(t: string, i: nat)
    requires i <= |t| && ParseString(t, i).Text?
    ensures i < |t| && t[i] == '\"' && ReadUnits(t, i + 1).Units?
  {
    UnescapeIsAsWritten(t, i + 1);
  }

  lemma QuotesStand(s: StringText, t: string, i: nat, q: nat)
    requires q == i + 1 + |PiecesString(s.pieces)|
    ensures |QuotedString(s)| == (if s.closed then q + 1 else q) - i
    ensures Has(t, i, QuotedString(s)) <==>
            && i < |t| && t[i] == '\"' && Has(t, i + 1, PiecesString(s.pieces))
            && (s.closed ==> q < |t| && t[q] == '\"')
  {
    HasThree(t, i, "\"", PiecesString(s.pieces), if s.closed then "\"" else "");
    HasChar(t, i, '\"');
    HasChar(t, q, '\"');
  }

  /** A string of the grammar, closed or ended by the text, is read to its end. */
  lemma {:induction false} StringReads(s: StringText, t: string, i: nat)
    requires AllowedString(s) && Has(t, i, QuotedString(s))
    requires s.closed || At(t, i + |QuotedString(s)|) == '\0'
    ensures i < |t| && t[i] == '\"' && ParseString(t, i) == Text(StringMeaning(s), i + |QuotedString(s)|)
  {
    var q := i + 1 + |PiecesString(s.pieces)|;
    QuotesStand(s, t, i, q);
    PiecesRead(s.pieces, t, i + 1, q);
    UnitsInQuotes(t, i, PieceUnits(s.pieces), q);
  }

  lemma PieceOf(t: string, i: nat) returns (p: Piece, e: nat)
    requires i < |t| && !EndsString(t[i]) && ReadUnits(t, i).Units?
    ensures AllowedPiece(p) && Has(t, i, PieceString(p)) && e == i + |PieceString(p)| && e <= |t|
    ensures ReadUnits(t, i) == PrependUnit(PieceUnit(p), ReadUnits(t, e))
  {
    if t[i] != '\\' {
      p := Plain(t[i]);
    } else if At(t, i + 1) != 'u' {
      p := Short(t[i + 1]);
    } else {
      var u := Hex4(t, i + 2);
      HexExactlyWhen(t, i + 2, u);
      p := Unicode(t[i + 2..i + 6], u);
    }
    e := i + |PieceString(p)|;
    PieceStands(p, t, i, e);
  }

  /** The pieces that were read. */
  lemma {:induction false} PiecesOf(t: string, i: nat) returns (ps: seq<Piece>)
    requires i <= |t| && ReadUnits(t, i).Units?
    ensures AllowedPieces(ps) && Has(t, i, PiecesString(ps)) && ReadUnits(t, i).end == i + |PiecesString(ps)|
    ensures PieceUnits(ps) == ReadUnits(t, i).units && ReadUnits(t, i).end <= |t|
    ensures EndsString(At(t, ReadUnits(t, i).end))
    decreases |t| - i
  {
    ps := [];
    if !EndsString(At(t, i)) {
      var p, e := PieceOf(t, i);
      var rest := PiecesOf(t, e);
      ps := [p] + rest;
      HasAppend(t, i, PieceString(p), PiecesString(rest));
    }
  }

  /** The string that was read, as one of the grammar. */
  lemma {:induction false} StringIsText(t: string, i: nat) returns (s: StringText)
    requires i <= |t| && ParseString(t, i).Text?
    ensures AllowedString(s) && Has(t, i, QuotedString(s)) && ParseString(t, i).end == i + |QuotedString(s)|
    ensures ParseString(t, i).text == StringMeaning(s) && (s.closed || At(t, ParseString(t, i).end) == '\0')
  {
    QuotedHasUnits(t, i);
    var ps := PiecesOf(t, i + 1);
    var q := i + 1 + |PiecesString(ps)|;
    s := StringText(ps, At(t, q) == '\"');
    UnitsInQuotes(t, i, PieceUnits(ps), q);
    QuotesStand(s, t, i, q);
  }

  // ----- what the counting pass counts -----

  /** One for a character or a short escape; five for `\u` and its digits. */
  function Counted(ps: seq<Piece>): nat {
    if ps == [] then 0 else (if ps[0].Unicode? then 5 else 1) + Counted(ps[1..])
  }

  lemma {:induction false} PieceCounted(p: Piece, t: string, i: nat, e: nat)
    requires AllowedPiece(p) && Has(t, i, PieceString(p)) && e == i + |PieceString(p)| && e <= |t|
    ensures CountEnd(t, i) == CountEnd(t, e) && CountSize(t, i) == (if p.Unicode? then 5 else 1) + CountSize(t, e)
  {
    HasAt(t, i, PieceString(p), 0);
    match p
    case Plain(c) =>
    case Short(c) => HasAt(t, i, PieceString(p), 1);
    case Unicode(digits, u) =>
      SpelledStands(digits, u, t, i);
      CountUnicode(t, i);
  }

  /** The counting pass comes to the end of the string and has counted that. */
  lemma {:induction false} PiecesCounted(ps: seq<Piece>, t: string, i: nat, end: nat)
    requires AllowedPieces(ps) && Has(t, i, PiecesString(ps)) && end == i + |PiecesString(ps)| && EndsString(At(t, end))
    ensures CountEnd(t, i) == end && CountSize(t, i) == Counted(ps)
    decreases ps
  {
    if ps != [] {
      var e := i + |PieceString(ps[0])|;
      PiecesHead(ps, t, i, e);
      PieceCounted(ps[0], t, i, e);
      PiecesCounted(ps[1..], t, e, end);
    }
  }
}
