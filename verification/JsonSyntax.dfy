/**
 The grammar of JSON texts: syntax trees, the text each stands for and the value it
 means, after RFC 8259.  The trees also cover what cJSON accepts beyond that grammar;
 `Strict` marks those of the RFC.
 */
module JsonSyntax {
  import opened JsonText
  import opened JsonStrings

  // ----- numbers -----

  datatype Exponent = NoExponent | Exponent(letter: char, sign: string, digits: string)

  /** A sign, the digits before and after the point, and an exponent. */
  datatype NumberText = NumberText(minus: bool, whole: string, fraction: string, exponent: Exponent)

  predicate AllDigits(s: string) {
    forall k :: 0 <= k < |s| ==> '0' <= s[k] <= '9'
  }

  function ExponentText(e: Exponent): string {
    match e
    case NoExponent => ""
    case Exponent(letter, sign, digits) => [letter] + sign + digits
  }

  function FractionText(fraction: string): string {
    if fraction == "" then "" else "." + fraction
  }

  function NumberString(n: NumberText): string {
    (if n.minus then "-" else "") + n.whole + FractionText(n.fraction) + ExponentText(n.exponent)
  }

  predicate AllowedExponent(e: Exponent) {
    match e
    case NoExponent => true
    case Exponent(letter, sign, digits) =>
      (letter == 'e' || letter == 'E') && (sign == "" || sign == "+" || sign == "-") && AllDigits(digits)
  }

  /** Digits that do not start with a zero; one zero may stand before them.  After a
      sign there need be none. */
  predicate AllowedWhole(whole: string) {
    AllDigits(whole) && !(|whole| > 1 && whole[0] == '0' && whole[1] == '0')
  }

  predicate AllowedNumber(n: NumberText) {
    && AllowedWhole(n.whole) && (n.whole == "" ==> n.minus)
    && AllDigits(n.fraction) && AllowedExponent(n.exponent)
  }

  /** A number of RFC 8259: some digit, no needless zero, and digits in the exponent. */
  predicate StrictNumber(n: NumberText) {
    && AllowedNumber(n) && n.whole != "" && (|n.whole| > 1 ==> n.whole[0] != '0')
    && (n.exponent.Exponent? ==> n.exponent.digits != "")
  }

  /** The number that digits are. */
  function Natural(digits: string): int
    requires AllDigits(digits)
  {
    if digits == "" then 0
    else 10 * Natural(digits[..|digits| - 1]) + (digits[|digits| - 1] as int - 48)
  }

  function ExponentNumber(e: Exponent): int
    requires AllowedExponent(e)
  {
    match e
    case NoExponent => 0
    case Exponent(_, sign, digits) => if sign == "-" then -Natural(digits) else Natural(digits)
  }

  function Pow(n: nat): int {
    if n == 0 then 1 else 10 * Pow(n - 1)
  }

  lemma PowIsPositive(n: nat)
    ensures Pow(n) > 0
  {
  }

  /** `m` times the power of ten. */
  function Scaled(m: int, power: int): real {
    if power >= 0 then (m * Pow(power)) as real
    else
      PowIsPositive(-power);
      m as real / Pow(-power) as real
  }

  lemma AllDigitsTogether(a: string, b: string)
    requires AllDigits(a) && AllDigits(b)
    ensures AllDigits(a + b)
  {
  }

  /** The digits as one whole number, moved by the exponent and the places after the point. */
  function NumberMeaning(n: NumberText): real
    requires AllowedNumber(n)
  {
    AllDigitsTogether(n.whole, n.fraction);
    var m := Natural(n.whole + n.fraction);
    Scaled(if n.minus then -m else m, ExponentNumber(n.exponent) - |n.fraction|)
  }

  /** The number would be longer with `c` and then `d` behind it. */
  predicate GoesOn(n: NumberText, c: char, d: char)
    requires AllowedNumber(n)
  {
    var digit := '0' <= c <= '9';
    if n.exponent.Exponent? then
      digit || ((c == '+' || c == '-') && n.exponent.sign == "" && n.exponent.digits == "")
    else if n.fraction != "" then digit || c == 'e' || c == 'E'
    else
      || c == 'e' || c == 'E' || (c == '.' && '0' <= d <= '9')
      || (digit && !(n.whole == "0" && c == '0'))
  }

  // ----- strings -----

  /** A character for itself; a backslash and a character; `\u` and four digits that
      spell a code unit. */
  datatype Piece = Plain(c: char) | Short(c: char) | Unicode(digits: string, u: CodeUnit)

  /** A string's pieces; a text may end inside the string. */
  datatype StringText = StringText(pieces: seq<Piece>, closed: bool)

  function PieceString(p: Piece): string {
    match p
    case Plain(c) => [c]
    case Short(c) => ['\\', c]
    case Unicode(digits, _) => "\\u" + digits
  }

  function PiecesString(ps: seq<Piece>): string {
    if ps == [] then "" else PieceString(ps[0]) + PiecesString(ps[1..])
  }

  function QuotedString(s: StringText): string {
    "\"" + PiecesString(s.pieces) + (if s.closed then "\"" else "")
  }

  /** The character is the hexadecimal digit for `d`. */
  predicate IsHexDigit(c: char, d: nat)
    requires d < 16
  {
    c == "0123456789abcdef"[d] || c == "0123456789ABCDEF"[d]
  }

  predicate Spells(digits: string, u: CodeUnit) {
    && |digits| == 4
    && IsHexDigit(digits[0], u / 0x1000) && IsHexDigit(digits[1], u / 0x100 % 0x10)
    && IsHexDigit(digits[2], u / 0x10 % 0x10) && IsHexDigit(digits[3], u % 0x10)
  }

  /** The two-character escapes of section 7 of RFC 8259. */
  const ESCAPES: map<char, int> := map[
    '\"' := 0x22, '\\' := 0x5C, '/' := 0x2F, 'b' := 0x08, 'f' := 0x0C, 'n' := 0x0A, 'r' := 0x0D, 't' := 0x09]

  predicate AllowedPiece(p: Piece) {
    match p
    case Plain(c) => c != '\"' && c != '\\' && c != '\0'
    case Short(c) => c != 'u' && c != '\0'
    case Unicode(digits, u) => Spells(digits, u)
  }

  predicate AllowedString(s: StringText) {
    forall k :: 0 <= k < |s.pieces| ==> AllowedPiece(s.pieces[k])
  }

  /** Control characters are escaped, and only the escapes of the RFC are used. */
  predicate StrictString(s: StringText) {
    && AllowedString(s) && s.closed
    && forall k :: 0 <= k < |s.pieces| ==>
         && (s.pieces[k].Plain? ==> s.pieces[k].c as int >= 0x20)
         && (s.pieces[k].Short? ==> s.pieces[k].c in ESCAPES)
  }

  function EscapedChar(c: char): char
    requires c in ESCAPES
  {
    ESCAPES[c] as char
  }

  function PieceUnit(p: Piece): Unit {
    match p
    case Plain(c) => Raw(c)
    case Short(c) => if c in ESCAPES then Raw(EscapedChar(c)) else Raw(c)
    case Unicode(_, u) => Code(u)
  }

  function PieceUnits(ps: seq<Piece>): seq<Unit> {
    if ps == [] then [] else [PieceUnit(ps[0])] + PieceUnits(ps[1..])
  }

  /** The text a string means to cJSON; `JsonStrings.UnescapeIsIdeal` says when it is
      the RFC's. */
  function StringMeaning(s: StringText): string {
    AsWritten(PieceUnits(s.pieces))
  }

  // ----- values -----

  datatype Tree =
    | NullTree
    | FalseTree
    | TrueTree
    | NumberTree(n: NumberText)
    | StringTree(s: StringText)
    | ArrayTree(gap: string, items: seq<Item>)
    | ObjectTree(gap: string, entries: seq<Entry>)

  /** An element with the white space around it. */
  datatype Item = Item(before: string, value: Tree, after: string)

  /** A name and a value with the white space around them. */
  datatype Entry = Entry(before: string, name: StringText, middle: string, gap: string, value: Tree, after: string)

  function TextOf(tree: Tree): string
    decreases tree, 0
  {
    match tree
    case NullTree => "null"
    case FalseTree => "false"
    case TrueTree => "true"
    case NumberTree(n) => NumberString(n)
    case StringTree(s) => QuotedString(s)
    case ArrayTree(gap, items) => "[" + (if items == [] then gap + "]" else ItemsText(items))
    case ObjectTree(gap, entries) => "{" + (if entries == [] then gap + "}" else EntriesText(entries))
  }

  /** Elements with commas between them, and the closing bracket. */
  function ItemsText(items: seq<Item>): string
    requires items != []
    decreases items, 1
  {
    items[0].before + TextOf(items[0].value) + items[0].after
    + (if |items| == 1 then "]" else "," + ItemsText(items[1..]))
  }

  function NameText(e: Entry): string {
    e.before + QuotedString(e.name) + e.middle + ":"
  }

  function EntriesText(entries: seq<Entry>): string
    requires entries != []
    decreases entries, 1
  {
    NameText(entries[0]) + (entries[0].gap + TextOf(entries[0].value) + entries[0].after
                            + (if |entries| == 1 then "}" else "," + EntriesText(entries[1..])))
  }

  /** Any characters up to the space, as the parser skips them. */
  predicate Space(s: string) {
    forall k :: 0 <= k < |s| ==> 1 <= s[k] as int <= 32
  }

  /** White space of RFC 8259. */
  predicate StrictSpace(s: string) {
    forall k :: 0 <= k < |s| ==> s[k] as int == 32 || s[k] as int == 9 || s[k] as int == 10 || s[k] as int == 13
  }

  /** A string that does not end can stand only where the text ends with it. */
  predicate Closed(tree: Tree) {
    tree.StringTree? ==> tree.s.closed
  }

  /** What cJSON reads. */
  predicate Allowed(tree: Tree)
    decreases tree, 0
  {
    match tree
    case NumberTree(n) => AllowedNumber(n)
    case StringTree(s) => AllowedString(s)
    case ArrayTree(gap, items) => Space(gap) && AllowedItems(items)
    case ObjectTree(gap, entries) => Space(gap) && AllowedEntries(entries)
    case _ => true
  }

  predicate AllowedItems(items: seq<Item>)
    decreases items, 1
  {
    items == [] ||
    (Space(items[0].before) && Space(items[0].after) && Allowed(items[0].value) && Closed(items[0].value)
     && AllowedItems(items[1..]))
  }

  predicate AllowedName(e: Entry) {
    AllowedString(e.name) && e.name.closed && Space(e.before) && Space(e.middle) && Space(e.gap)
  }

  predicate AllowedEntries(entries: seq<Entry>)
    decreases entries, 1
  {
    entries == [] ||
    (AllowedName(entries[0]) && Space(entries[0].after) && Allowed(entries[0].value) && Closed(entries[0].value)
     && AllowedEntries(entries[1..]))
  }

  /** What RFC 8259 has for a value. */
  predicate Strict(tree: Tree)
    decreases tree, 0
  {
    match tree
    case NumberTree(n) => StrictNumber(n)
    case StringTree(s) => StrictString(s)
    case ArrayTree(gap, items) => StrictSpace(gap) && StrictItems(items)
    case ObjectTree(gap, entries) => StrictSpace(gap) && StrictEntries(entries)
    case _ => true
  }

  predicate StrictItems(items: seq<Item>)
    decreases items, 1
  {
    items == [] ||
    (StrictSpace(items[0].before) && StrictSpace(items[0].after) && Strict(items[0].value) && StrictItems(items[1..]))
  }

  predicate StrictEntries(entries: seq<Entry>)
    decreases entries, 1
  {
    entries == [] ||
    (StrictString(entries[0].name) && StrictSpace(entries[0].before) && StrictSpace(entries[0].middle)
     && StrictSpace(entries[0].gap) && StrictSpace(entries[0].after) && Strict(entries[0].value)
     && StrictEntries(entries[1..]))
  }

  /** The value a tree means. */
  function Meaning(tree: Tree): Json
    requires Allowed(tree)
    decreases tree, 0
  {
    match tree
    case NullTree => Null
    case FalseTree => False
    case TrueTree => True
    case NumberTree(n) => Number(NumberMeaning(n))
    case StringTree(s) => String(StringMeaning(s))
    case ArrayTree(_, items) => Array(ItemsMeaning(items))
    case ObjectTree(_, entries) => Object(EntriesMeaning(entries))
  }

  function ItemsMeaning(items: seq<Item>): (r: seq<Json>)
    requires AllowedItems(items)
    ensures |r| == |items|
    decreases items, 1
  {
    if items == [] then [] else [Meaning(items[0].value)] + ItemsMeaning(items[1..])
  }

  function EntriesMeaning(entries: seq<Entry>): (r: seq<Member>)
    requires AllowedEntries(entries)
    ensures |r| == |entries|
    decreases entries, 1
  {
    if entries == [] then []
    else [Member(StringMeaning(entries[0].name), Meaning(entries[0].value))] + EntriesMeaning(entries[1..])
  }

  /** Nothing behind the text at `e` belongs to it: no character that would continue a
      number, and nothing at all behind a string that is not closed. */
  predicate StopsAt(tree: Tree, t: string, e: nat)
    requires Allowed(tree) && e <= |t|
  {
    match tree
    case NumberTree(n) => !GoesOn(n, At(t, e), if e < |t| then At(t, e + 1) else '\0')
    case StringTree(s) => s.closed || At(t, e) == '\0'
    case _ => true
  }

  // ----- strict trees are allowed -----

  lemma StrictIsSpace(s: string)
    requires StrictSpace(s)
    ensures Space(s)
  {
  }

  lemma {:induction false} StrictIsAllowed(tree: Tree)
    requires Strict(tree)
    ensures Allowed(tree) && Closed(tree)
    decreases tree, 0
  {
    match tree
    case ArrayTree(gap, items) => StrictItemsAreAllowed(items);
    case ObjectTree(gap, entries) => StrictEntriesAreAllowed(entries);
    case _ =>
  }

  lemma {:induction false} StrictItemsAreAllowed(items: seq<Item>)
    requires StrictItems(items)
    ensures AllowedItems(items)
    decreases items, 1
  {
    if items != [] {
      StrictIsAllowed(items[0].value);
      StrictItemsAreAllowed(items[1..]);
    }
  }

  lemma {:induction false} StrictEntriesAreAllowed(entries: seq<Entry>)
    requires StrictEntries(entries)
    ensures AllowedEntries(entries)
    decreases entries, 1
  {
    if entries != [] {
      StrictIsAllowed(entries[0].value);
      StrictEntriesAreAllowed(entries[1..]);
    }
  }
}
