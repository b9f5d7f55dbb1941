/**
 What the cJSON parser returns for a text, as a function of the text and the
 position it is called at (`parse_value` and its callees in
 `src/cJSON/cJSON.c`).  `JsonParser` is the pointer-walking code.
 */
module JsonParse {
  import opened JsonText

  /** A value and the position after it; the position the source leaves in its
      error pointer; or an escape sequence the model leaves out: a backslash
      before the terminator, or `\u` without four hexadecimal digits. */
  datatype Outcome =
    | Parsed(value: Json, end: nat)
    | Rejected(at: nat)
    | Unmodelled

  datatype TextOutcome =
    | Text(text: string, end: nat)
    | NoText(at: nat)
    | BadEscape

  // ----- numbers -----

  function DigitRun(t: string, i: nat): (j: nat)
    requires i <= |t|
    ensures i <= j <= |t|
    ensures !IsDigit(At(t, j))
    decreases |t| - i
  {
    if IsDigit(At(t, i)) then DigitRun(t, i + 1) else i
  }

  /** `n` followed by the digits of t[i..j], as `n*10 + digit` builds it up. */
  function Accumulate(t: string, i: nat, j: nat, n: real): real
    requires i <= j <= |t|
    decreases j - i
  {
    if i == j then n else Accumulate(t, i + 1, j, n * 10.0 + DigitValue(t[i]) as real)
  }

  function AccumulateInt(t: string, i: nat, j: nat, n: int): int
    requires i <= j <= |t|
    decreases j - i
  {
    if i == j then n else AccumulateInt(t, i + 1, j, n * 10 + DigitValue(t[i]))
  }

  function Power10(k: int): real
    decreases if k < 0 then -k else k
  {
    if k == 0 then 1.0 else if k > 0 then 10.0 * Power10(k - 1) else Power10(k + 1) / 10.0
  }

  /** Where the integer part starts and ends, after the sign. */
  function IntegerStart(t: string, i: nat): (j: nat)
    requires i <= |t|
    ensures i <= j <= |t|
  {
    var p := if At(t, i) == '-' then i + 1 else i;
    if At(t, p) == '0' then p + 1 else p
  }

  function IntegerEnd(t: string, i: nat): (j: nat)
    requires i <= |t|
    ensures IntegerStart(t, i) <= j <= |t|
  {
    var p := IntegerStart(t, i);
    if '1' <= At(t, p) <= '9' then DigitRun(t, p) else p
  }

  predicate HasFraction(t: string, p: nat)
    requires p <= |t|
  {
    At(t, p) == '.' && IsDigit(At(t, p + 1))
  }

  function FractionEnd(t: string, p: nat): (j: nat)
    requires p <= |t|
    ensures p <= j <= |t|
    ensures HasFraction(t, p) ==> p < j
  {
    if HasFraction(t, p) then DigitRun(t, p + 1) else p
  }

  predicate HasExponent(t: string, p: nat)
    requires p <= |t|
  {
    At(t, p) == 'e' || At(t, p) == 'E'
  }

  function ExponentStart(t: string, p: nat): (j: nat)
    requires p <= |t| && HasExponent(t, p)
    ensures p < j <= |t|
  {
    if At(t, p + 1) == '+' || At(t, p + 1) == '-' then p + 2 else p + 1
  }

  /** The digits before and after the point, as one number. */
  function Mantissa(t: string, i: nat): real
    requires i <= |t|
  {
    var b := IntegerEnd(t, i);
    var whole := Accumulate(t, IntegerStart(t, i), b, 0.0);
    if HasFraction(t, b) then Accumulate(t, b + 1, FractionEnd(t, b), whole) else whole
  }

  /** The exponent that may stand at `c`. */
  function ExponentValue(t: string, c: nat): int
    requires c <= |t|
  {
    if !HasExponent(t, c) then 0
    else
      var d := ExponentStart(t, c);
      var subscale := AccumulateInt(t, d, DigitRun(t, d), 0);
      if At(t, c + 1) == '-' then -subscale else subscale
  }

  /** Minus the digits after the point. */
  function FractionScale(t: string, b: nat): int
    requires b <= |t|
  {
    if HasFraction(t, b) then -(FractionEnd(t, b) - (b + 1)) else 0
  }

  /** The power of ten. */
  function Scale(t: string, i: nat): int
    requires i <= |t|
  {
    var b := IntegerEnd(t, i);
    FractionScale(t, b) + ExponentValue(t, FractionEnd(t, b))
  }

  function NumberValue(t: string, i: nat): real
    requires i <= |t|
  {
    (if At(t, i) == '-' then -1.0 else 1.0) * Mantissa(t, i) * Power10(Scale(t, i))
  }

  function NumberEnd(t: string, i: nat): (j: nat)
    requires i <= |t|
    ensures i <= j <= |t|
    ensures At(t, i) == '-' || IsDigit(At(t, i)) ==> i < j
  {
    var c := FractionEnd(t, IntegerEnd(t, i));
    if HasExponent(t, c) then DigitRun(t, ExponentStart(t, c)) else c
  }

  // ----- strings -----

  predicate IsHex(c: char) {
    '0' <= c <= '9' || 'A' <= c <= 'F' || 'a' <= c <= 'f'
  }

  function HexValue(c: char): (d: nat)
    requires IsHex(c)
    ensures d < 16
  {
    if '0' <= c <= '9' then c as int - '0' as int
    else if 'A' <= c <= 'F' then 10 + (c as int - 'A' as int)
    else 10 + (c as int - 'a' as int)
  }

  predicate FourHex(t: string, i: nat) {
    i + 4 <= |t| && IsHex(t[i]) && IsHex(t[i + 1]) && IsHex(t[i + 2]) && IsHex(t[i + 3])
  }

  function Hex4(t: string, i: nat): (u: nat)
    requires FourHex(t, i)
    ensures u < 0x10000
  {
    0x1000 * HexValue(t[i]) + 0x100 * HexValue(t[i + 1]) + 0x10 * HexValue(t[i + 2]) + HexValue(t[i + 3])
  }

  /** The UTF-8 encoding of a code point, by the table of section 3 of RFC 3629. */
  function Utf8(u: nat): (s: string)
    requires u < 0x110000
    ensures 1 <= |s| <= 4
  {
    if u < 0x80 then [u as char]
    else if u < 0x800 then [(0xC0 + u / 0x40) as char, (0x80 + u % 0x40) as char]
    else if u < 0x10000 then
      [(0xE0 + u / 0x1000) as char, (0x80 + u / 0x40 % 0x40) as char, (0x80 + u % 0x40) as char]
    else
      [(0xF0 + u / 0x40000) as char, (0x80 + u / 0x1000 % 0x40) as char,
       (0x80 + u / 0x40 % 0x40) as char, (0x80 + u % 0x40) as char]
  }

  predicate IsHigh(u: nat) { 0xD800 <= u <= 0xDBFF }

  predicate IsLow(u: nat) { 0xDC00 <= u <= 0xDFFF }

  /** The code point of a surrogate pair, section 2.2 of RFC 2781. */
  function Combine(high: nat, low: nat): (u: nat)
    requires IsHigh(high) && IsLow(low)
    ensures 0x10000 <= u < 0x110000
  {
    0x10000 + (high % 0x400) * 0x400 + low % 0x400
  }

  /** What one escape sequence adds to the text and where it ends. */
  datatype Escaped = Emit(text: string, next: nat) | Bad

  function UnicodeEscape(t: string, i: nat): (e: Escaped)
    requires i + 2 <= |t| && t[i] == '\\' && t[i + 1] == 'u'
    ensures e.Emit? ==> i < e.next <= |t|
  {
    if !FourHex(t, i + 2) then Bad
    else
      var u := Hex4(t, i + 2);
      if IsLow(u) || u == 0 then Emit("", i + 6)
      else if IsHigh(u) then
        if At(t, i + 6) != '\\' || At(t, i + 7) != 'u' then Emit("", i + 6)
        else if !FourHex(t, i + 8) then Bad
        else if !IsLow(Hex4(t, i + 8)) then Emit("", i + 12)
        else Emit(Utf8(Combine(u, Hex4(t, i + 8))), i + 12)
      else Emit(Utf8(u), i + 6)
  }

  function EscapeAt(t: string, i: nat): (e: Escaped)
    requires i < |t| && t[i] == '\\'
    ensures e.Emit? ==> i < e.next <= |t|
  {
    match At(t, i + 1)
    case '\0' => Bad
    case 'b' => Emit("\U{08}", i + 2)
    case 'f' => Emit("\U{0C}", i + 2)
    case 'n' => Emit("\n", i + 2)
    case 'r' => Emit("\r", i + 2)
    case 't' => Emit("\t", i + 2)
    case 'u' => UnicodeEscape(t, i)
    case c => Emit([c], i + 2)
  }

  predicate EndsString(c: char) {
    c == '\"' || c == '\0'
  }

  function Prepend(s: string, r: TextOutcome): TextOutcome {
    match r
    case Text(rest, end) => Text(s + rest, end)
    case _ => r
  }

  /** The unescaped text from position `i` to the closing quote or the terminator. */
  function Unescape(t: string, i: nat): (r: TextOutcome)
    requires i <= |t|
    ensures r.Text? ==> i <= r.end <= |t| && EndsString(At(t, r.end))
    ensures !r.NoText?
    decreases |t| - i
  {
    if EndsString(At(t, i)) then Text("", i)
    else if t[i] != '\\' then Prepend([t[i]], Unescape(t, i + 1))
    else
      match EscapeAt(t, i)
      case Bad => BadEscape
      case Emit(s, next) => Prepend(s, Unescape(t, next))
  }

  /** `parse_string`: a closing quote is passed over, a terminator is not. */
  function ParseString(t: string, i: nat): (r: TextOutcome)
    requires i <= |t|
    ensures r.Text? ==> i < r.end <= |t|
    ensures r.NoText? ==> r.at == i
  {
    if At(t, i) != '\"' then NoText(i)
    else
      var r := Unescape(t, i + 1);
      if r.Text? then Text(r.text, if At(t, r.end) == '\"' then r.end + 1 else r.end) else BadEscape
  }

  // ----- values -----

  function ParseValue(t: string, i: nat): (r: Outcome)
    requires i <= |t|
    ensures r.Parsed? ==> i < r.end <= |t|
    ensures r.Rejected? ==> i <= r.at <= |t|
    decreases |t| - i, 2
  {
    StartsHas(t, i, "null");
    StartsHas(t, i, "false");
    StartsHas(t, i, "true");
    if Starts(t, i, "null") then Parsed(Null, i + 4)
    else if Starts(t, i, "false") then Parsed(False, i + 5)
    else if Starts(t, i, "true") then Parsed(True, i + 4)
    else if At(t, i) == '\"' then
      match ParseString(t, i)
      case Text(s, e) => Parsed(String(s), e)
      case NoText(at) => Rejected(at)
      case BadEscape => Unmodelled
    else if At(t, i) == '-' || IsDigit(At(t, i)) then Parsed(Number(NumberValue(t, i)), NumberEnd(t, i))
    else if At(t, i) == '[' then ParseArray(t, i)
    else if At(t, i) == '{' then ParseObject(t, i)
    else Rejected(i)
  }

  function ParseArray(t: string, i: nat): (r: Outcome)
    requires i < |t| && t[i] == '['
    ensures r.Parsed? ==> i < r.end <= |t|
    ensures r.Rejected? ==> i <= r.at <= |t|
    decreases |t| - i, 1
  {
    var j := Skip(t, i + 1);
    if At(t, j) == ']' then Parsed(Array([]), j + 1) else ParseItems(t, j, [])
  }

  /** The elements from position `i` on, behind those already read. */
  function ParseItems(t: string, i: nat, before: seq<Json>): (r: Outcome)
    requires i <= |t|
    ensures r.Parsed? ==> i < r.end <= |t|
    ensures r.Rejected? ==> i <= r.at <= |t|
    decreases |t| - i, 3
  {
    match ParseValue(t, i)
    case Parsed(v, e) =>
      var j := Skip(t, e);
      if At(t, j) == ',' then ParseMoreItems(t, j + 1, before + [v])
      else if At(t, j) == ']' then Parsed(Array(before + [v]), j + 1)
      else Rejected(j)
    case r => r
  }

  /** The same, from white space on. */
  function ParseMoreItems(t: string, i: nat, before: seq<Json>): (r: Outcome)
    requires i <= |t|
    ensures r.Parsed? ==> i < r.end <= |t|
    ensures r.Rejected? ==> i <= r.at <= |t|
    decreases |t| - i, 5
  {
    ParseItems(t, Skip(t, i), before)
  }

  function ParseObject(t: string, i: nat): (r: Outcome)
    requires i < |t| && t[i] == '{'
    ensures r.Parsed? ==> i < r.end <= |t|
    ensures r.Rejected? ==> i <= r.at <= |t|
    decreases |t| - i, 1
  {
    var j := Skip(t, i + 1);
    if At(t, j) == '}' then Parsed(Object([]), j + 1) else ParseMembers(t, j, [])
  }

  datatype MemberOutcome = OneMember(member: Member, end: nat) | NoMember(why: Outcome)

  /** A name, a colon and a value. */
  function ParseMember(t: string, i: nat): (r: MemberOutcome)
    requires i <= |t|
    ensures r.OneMember? ==> i < r.end <= |t|
    ensures r.NoMember? ==> !r.why.Parsed? && (r.why.Rejected? ==> i <= r.why.at <= |t|)
    decreases |t| - i, 3
  {
    match ParseString(t, i)
    case NoText(at) => NoMember(Rejected(at))
    case BadEscape => NoMember(Unmodelled)
    case Text(name, e) =>
      var c := Skip(t, e);
      if At(t, c) != ':' then NoMember(Rejected(c))
      else
        match ParseValue(t, Skip(t, c + 1))
        case Parsed(v, end) => OneMember(Member(name, v), end)
        case r => NoMember(r)
  }

  function ParseMembers(t: string, i: nat, before: seq<Member>): (r: Outcome)
    requires i <= |t|
    ensures r.Parsed? ==> i < r.end <= |t|
    ensures r.Rejected? ==> i <= r.at <= |t|
    decreases |t| - i, 4
  {
    match ParseMember(t, i)
    case NoMember(why) => why
    case OneMember(m, e) =>
      var j := Skip(t, e);
      if At(t, j) == ',' then ParseMoreMembers(t, j + 1, before + [m])
      else if At(t, j) == '}' then Parsed(Object(before + [m]), j + 1)
      else Rejected(j)
  }

  /** The same, from white space on. */
  function ParseMoreMembers(t: string, i: nat, before: seq<Member>): (r: Outcome)
    requires i <= |t|
    ensures r.Parsed? ==> i < r.end <= |t|
    ensures r.Rejected? ==> i <= r.at <= |t|
    decreases |t| - i, 5
  {
    ParseMembers(t, Skip(t, i), before)
  }

  function AfterValue(t: string, one: Outcome, whole: bool): Outcome
    requires one.Parsed? ==> one.end <= |t|
  {
    match one
    case Parsed(v, e) =>
      if !whole then one
      else if At(t, Skip(t, e)) == '\0' then Parsed(v, Skip(t, e))
      else Rejected(Skip(t, e))
    case _ => one
  }

  /** `cJSON_ParseWithOpts`: with `whole` set nothing but white space may follow. */
  function ParseDocument(t: string, whole: bool): Outcome {
    AfterValue(t, ParseValue(t, Skip(t, 0)), whole)
  }
}
