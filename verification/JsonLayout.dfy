/**
 What `src/cJSON/cJSON.c` prints, as texts of the grammar: each value has exactly one
 text in each form, with the white space, the numbers and the escapes said here.
 */
module JsonLayout {
  import opened CStrings
  import opened JsonText
  import opened JsonPrint
  import opened JsonStrings
  import opened JsonSyntax

  // ----- the layout -----

  /** A newline and `n` tabs. */
  predicate IsIndent(s: string, n: int) {
    && |s| == 1 + (if n > 0 then n else 0) && s[0] == '\n'
    && forall k :: 1 <= k < |s| ==> s[k] == '\t'
  }

  /** Inside `depth` brackets and braces.  Formatted, a newline and a tab for each of
      them and one more stand before every name, a tab behind every colon, a space
      behind every comma of an array, and a newline and a tab for each before a closing
      brace, one tab less in an empty object; nothing else.  Unformatted, nothing. */
  predicate Laid(tree: Tree, depth: nat, fmt: bool)
    decreases tree, 0
  {
    match tree
    case ArrayTree(gap, items) => gap == "" && LaidItems(items, depth, fmt, true)
    case ObjectTree(gap, entries) =>
      if entries == [] then if fmt then IsIndent(gap, depth - 1) else gap == ""
      else gap == "" && LaidEntries(entries, depth, fmt)
    case _ => true
  }

  predicate LaidItems(items: seq<Item>, depth: nat, fmt: bool, first: bool)
    decreases items, 1
  {
    items == [] ||
    (items[0].before == (if fmt && !first then " " else "") && items[0].after == ""
     && Laid(items[0].value, depth + 1, fmt) && LaidItems(items[1..], depth, fmt, false))
  }

  predicate LaidName(e: Entry, depth: nat, fmt: bool) {
    && (if fmt then IsIndent(e.before, depth + 1) else e.before == "")
    && e.middle == "" && e.gap == (if fmt then "\t" else "")
  }

  predicate LaidEntries(entries: seq<Entry>, depth: nat, fmt: bool)
    decreases entries, 1
  {
    entries == [] ||
    (LaidName(entries[0], depth, fmt)
     && (if fmt && |entries| == 1 then IsIndent(entries[0].after, depth) else entries[0].after == "")
     && Laid(entries[0].value, depth + 1, fmt) && LaidEntries(entries[1..], depth, fmt))
  }

  // ----- the numbers and strings -----

  /** Digits without needless zeros, and a sign before those below zero only. */
  predicate PlainNumber(n: NumberText) {
    && n.whole != "" && (|n.whole| > 1 ==> n.whole[0] != '0') && (n.minus ==> n.whole != "0")
    && n.fraction == "" && n.exponent == NoExponent
  }

  /** A quote, a backslash and the five control characters that have one are escaped by
      a letter, other control characters by four lower-case digits, nothing else is. */
  predicate PlainPiece(p: Piece) {
    match p
    case Plain(c) => c as int >= 0x20
    case Short(c) => c in ESCAPES && c != '/'
    case Unicode(digits, u) =>
      && 0 < u < 0x20 && u != 8 && u != 9 && u != 10 && u != 12 && u != 13 && |digits| == 4
      && digits[..2] == "00" && digits[2] == "0123456789abcdef"[u / 0x10] && digits[3] == "0123456789abcdef"[u % 0x10]
  }

  predicate PlainString(s: StringText) {
    s.closed && forall k :: 0 <= k < |s.pieces| ==> PlainPiece(s.pieces[k])
  }

  predicate PlainTree(tree: Tree)
    decreases tree, 0
  {
    match tree
    case NumberTree(n) => PlainNumber(n)
    case StringTree(s) => PlainString(s)
    case ArrayTree(_, items) => PlainItems(items)
    case ObjectTree(_, entries) => PlainEntries(entries)
    case _ => true
  }

  predicate PlainItems(items: seq<Item>)
    decreases items, 1
  {
    items == [] || (PlainTree(items[0].value) && PlainItems(items[1..]))
  }

  predicate PlainEntries(entries: seq<Entry>)
    decreases entries, 1
  {
    entries == [] || (PlainString(entries[0].name) && PlainTree(entries[0].value) && PlainEntries(entries[1..]))
  }

  // ----- digits -----

  lemma {:induction false} DigitsAre(n: nat)
    ensures AllDigits(Digits(n)) && Natural(Digits(n)) == n
    ensures |Digits(n)| > 1 ==> n >= 10 && Digits(n)[0] != '0'
    ensures n > 0 ==> Digits(n)[0] != '0'
  {
    var s := Digits(n);
    if n < 10 {
      assert s[..0] == "" && s == [DigitChar(n)];
    } else {
      DigitsAre(n / 10);
      assert s[..|s| - 1] == Digits(n / 10) && s[|s| - 1] == DigitChar(n % 10);
      assert s[0] == Digits(n / 10)[0];
    }
  }

  lemma {:induction false} NaturalGrows(s: string)
    requires AllDigits(s) && s != "" && s[0] != '0'
    ensures Natural(s) > 0
  {
    if |s| > 1 {
      NaturalGrows(s[..|s| - 1]);
    } else {
      assert s[..0] == "";
    }
  }

  /** The digits of a number are the only ones without needless zeros. */
  lemma {:induction false} DigitsUnique(s: string, n: nat)
    requires AllDigits(s) && s != "" && (|s| > 1 ==> s[0] != '0') && Natural(s) == n
    ensures s == Digits(n)
  {
    var k := |s| - 1;
    var d := s[k] as int - 48;
    if k == 0 {
      assert s[..0] == "" && s == [s[0]];
      assert n == d && DigitChar(n) == s[0];
    } else {
      NaturalGrows(s[..k]);
      var q := Natural(s[..k]);
      assert n == 10 * q + d && n / 10 == q && n % 10 == d;
      DigitsUnique(s[..k], q);
      assert s == s[..k] + [s[k]] && DigitChar(d) == s[k];
    }
  }

  /** The numbers that are printed are those of a 32-bit int. */
  lemma IntsArePrintable(n: int)
    ensures Printable(Number(n as real)) <==> -2147483648 <= n <= 2147483647
  {
  }

  function NumberFor(n: int): NumberText {
    NumberText(n < 0, Digits(if n < 0 then -n else n), "", NoExponent)
  }

  lemma NumberForText(n: int)
    ensures NumberString(NumberFor(n)) == Decimal(n)
  {
    var m := if n < 0 then -n else n;
    var sign := if n < 0 then "-" else "";
    assert sign + Digits(m) + "" + "" == sign + Digits(m);
  }

  lemma NumberForMeans(n: int)
    ensures AllowedNumber(NumberFor(n)) && PlainNumber(NumberFor(n)) && NumberMeaning(NumberFor(n)) == n as real
  {
    var m := if n < 0 then -n else n;
    DigitsAre(m);
    assert Digits(m) + "" == Digits(m);
    assert Digits(0) == "0";
  }

  lemma NumberForIs(n: int)
    ensures var x := NumberFor(n);
            && AllowedNumber(x) && PlainNumber(x) && NumberString(x) == Decimal(n) && NumberMeaning(x) == n as real
  {
    NumberForText(n);
    NumberForMeans(n);
  }

  lemma NumberUnique(x: NumberText, n: int)
    requires AllowedNumber(x) && PlainNumber(x) && NumberMeaning(x) == n as real
    ensures x == NumberFor(n)
  {
    assert x.whole + "" == x.whole;
    var m := Natural(x.whole);
    assert Scaled(if x.minus then -m else m, 0) == (if x.minus then -m else m) as real;
    if |x.whole| == 1 && x.whole[0] == '0' {
      assert x.whole == "0" && x.whole[..0] == "";
    } else {
      NaturalGrows(x.whole);
    }
    DigitsUnique(x.whole, if n < 0 then -n else n);
  }

  // ----- escapes -----

  function PieceFor(c: char): Piece
    requires c != '\0'
  {
    if c as int >= 0x20 && c != '\"' && c != '\\' then Plain(c)
    else
      match c
      case '\"' => Short('\"')
      case '\\' => Short('\\')
      case '\U{08}' => Short('b')
      case '\U{0C}' => Short('f')
      case '\n' => Short('n')
      case '\r' => Short('r')
      case '\t' => Short('t')
      case _ => Unicode("00" + [HexChar(c as int / 16), HexChar(c as int % 16)], c as int)
  }

  lemma HexCharIs(d: nat)
    requires d < 16
    ensures HexChar(d) == "0123456789abcdef"[d]
  {
  }

  /** What a piece stands for by itself. */
  predicate PieceMeans(p: Piece, c: char)
    requires AllowedPiece(p)
  {
    c != '\0' &&
    match PieceUnit(p)
    case Raw(x) => x == c
    case Code(u) => u == c as int
  }

  /** A control character without a letter of its own. */
  predicate NeedsDigits(c: char) {
    0 < c as int < 0x20 && !(8 <= c as int <= 10) && c as int != 12 && c as int != 13
  }

  lemma SpelledFor(c: char, digits: string)
    requires NeedsDigits(c) && digits == "00" + [HexChar(c as int / 16), HexChar(c as int % 16)]
    ensures AllowedPiece(Unicode(digits, c as int)) && PlainPiece(Unicode(digits, c as int))
  {
    HexCharIs(c as int / 16);
    HexCharIs(c as int % 16);
    assert digits[..2] == "00";
    assert digits[2] == HexChar(c as int / 16) && digits[3] == HexChar(c as int % 16);
  }

  lemma PieceForIs(c: char)
    requires c != '\0'
    ensures var p := PieceFor(c);
            AllowedPiece(p) && PlainPiece(p) && PieceString(p) == EscapeChar(c) && PieceMeans(p, c)
  {
    if NeedsDigits(c) {
      SpelledFor(c, "00" + [HexChar(c as int / 16), HexChar(c as int % 16)]);
    }
  }

  lemma DigitsUniqueFor(c: char, digits: string)
    requires NeedsDigits(c) && PlainPiece(Unicode(digits, c as int))
    ensures digits == "00" + [HexChar(c as int / 16), HexChar(c as int % 16)]
  {
    HexCharIs(c as int / 16);
    HexCharIs(c as int % 16);
    assert digits == digits[..2] + [digits[2], digits[3]];
  }

  lemma PieceUnique(p: Piece, c: char)
    requires AllowedPiece(p) && PlainPiece(p) && PieceMeans(p, c)
    ensures p == PieceFor(c)
  {
    if p.Unicode? {
      DigitsUniqueFor(c, p.digits);
    }
  }

  // ----- strings -----

  function PiecesFor(s: string): seq<Piece>
    requires CString(s)
  {
    if s == "" then [] else [PieceFor(s[0])] + PiecesFor(s[1..])
  }

  function StringFor(s: string): StringText
    requires CString(s)
  {
    StringText(PiecesFor(s), true)
  }

  predicate PlainPieces(ps: seq<Piece>) {
    forall k :: 0 <= k < |ps| ==> AllowedPiece(ps[k]) && PlainPiece(ps[k])
  }

  /** A piece that is printed adds one character, and takes nothing from the next. */
  lemma PlainPieceAdds(p: Piece, rest: seq<Unit>)
    requires AllowedPiece(p) && PlainPiece(p)
    ensures AsWritten([PieceUnit(p)] + rest) == OneUnit(PieceUnit(p)) + AsWritten(rest)
  {
    AsWrittenPlain(PieceUnit(p), rest);
  }

  lemma PlainUnit(p: Piece, c: char)
    requires AllowedPiece(p) && PlainPiece(p) && PieceMeans(p, c)
    ensures OneUnit(PieceUnit(p)) == [c]
  {
  }

  lemma {:induction false} PiecesForAre(s: string)
    requires CString(s)
    ensures PlainPieces(PiecesFor(s)) && PiecesString(PiecesFor(s)) == Escape(s)
    ensures AsWritten(PieceUnits(PiecesFor(s))) == s
  {
    if s != "" {
      var p, rest := PieceFor(s[0]), PiecesFor(s[1..]);
      PieceForIs(s[0]);
      PiecesForAre(s[1..]);
      PlainPieceAdds(p, PieceUnits(rest));
      PlainUnit(p, s[0]);
      assert PieceUnits([p] + rest) == [PieceUnit(p)] + PieceUnits(rest);
      assert s == [s[0]] + s[1..];
    }
  }

  function PieceChar(p: Piece): (c: char)
    requires AllowedPiece(p) && PlainPiece(p)
    ensures PieceMeans(p, c)
  {
    match p
    case Plain(c) => c
    case Short(c) => EscapedChar(c)
    case Unicode(_, u) => u as char
  }

  lemma {:induction false} PiecesUnique(ps: seq<Piece>, s: string)
    requires CString(s) && PlainPieces(ps) && AsWritten(PieceUnits(ps)) == s
    ensures ps == PiecesFor(s)
    decreases ps
  {
    if ps != [] {
      var c, rest := PieceChar(ps[0]), AsWritten(PieceUnits(ps[1..]));
      PlainPieceAdds(ps[0], PieceUnits(ps[1..]));
      PlainUnit(ps[0], c);
      assert s == [c] + rest && s[1..] == rest;
      PieceUnique(ps[0], c);
      PiecesUnique(ps[1..], rest);
    }
  }

  lemma StringForIs(s: string)
    requires CString(s)
    ensures var x := StringFor(s);
            AllowedString(x) && PlainString(x) && QuotedString(x) == Quote(s) && StringMeaning(x) == s
  {
    PiecesForAre(s);
  }

  lemma StringUnique(x: StringText, s: string)
    requires CString(s) && AllowedString(x) && PlainString(x) && StringMeaning(x) == s
    ensures x == StringFor(s)
  {
    PiecesUnique(x.pieces, s);
  }

  // ----- white space -----

  function Indent(n: int): string {
    "\n" + seq(if n > 0 then n else 0, i => '\t')
  }

  lemma {:induction false} AllTabs(n: int)
    ensures forall k :: 0 <= k < |Tabs(n)| ==> Tabs(n)[k] == '\t'
  {
    if n > 0 {
      AllTabs(n - 1);
    }
  }

  lemma IndentFrom(tabs: string, n: int)
    requires |tabs| == (if n > 0 then n else 0) && forall k :: 0 <= k < |tabs| ==> tabs[k] == '\t'
    ensures "\n" + tabs == Indent(n)
  {
    assert tabs == seq(if n > 0 then n else 0, i => '\t');
  }

  lemma TabsAre(n: int)
    ensures "\n" + Tabs(n) == Indent(n) && IsIndent(Indent(n), n)
  {
    AllTabs(n);
    IndentFrom(Tabs(n), n);
  }

  lemma IndentUnique(s: string, n: int)
    requires IsIndent(s, n)
    ensures s == Indent(n)
  {
  }

  // ----- the tree of a value -----

  function PrintTree(v: Json, depth: nat, fmt: bool): Tree
    requires Printable(v)
    decreases v, 0
  {
    match v
    case Null => NullTree
    case False => FalseTree
    case True => TrueTree
    case Number(r) => NumberTree(NumberFor(r.Floor))
    case String(s) => StringTree(StringFor(s))
    case Array(items) => ArrayTree("", ItemTrees(items, depth, fmt, true))
    case Object(members) =>
      ObjectTree(if members == [] && fmt then Indent(depth - 1) else "", EntryTrees(members, depth, fmt))
  }

  function ItemTrees(items: seq<Json>, depth: nat, fmt: bool, first: bool): (r: seq<Item>)
    requires PrintableItems(items)
    ensures |r| == |items|
    decreases items, 1
  {
    if items == [] then []
    else
      [Item(if fmt && !first then " " else "", PrintTree(items[0], depth + 1, fmt), "")]
      + ItemTrees(items[1..], depth, fmt, false)
  }

  function EntryTree(m: Member, last: bool, depth: nat, fmt: bool): Entry
    requires PrintableMember(m)
    decreases m, 1
  {
    Entry(If(fmt, Indent(depth + 1)), StringFor(m.name), "", If(fmt, "\t"), PrintTree(m.value, depth + 1, fmt),
          If(fmt && last, Indent(depth)))
  }

  function EntryTrees(members: seq<Member>, depth: nat, fmt: bool): (r: seq<Entry>)
    requires PrintableMembers(members)
    ensures |r| == |members|
    decreases members, 1
  {
    if members == [] then []
    else [EntryTree(members[0], |members| == 1, depth, fmt)] + EntryTrees(members[1..], depth, fmt)
  }

  /** What a tree has to be for a printed value. */
  predicate Prints(tree: Tree, v: Json, depth: nat, fmt: bool) {
    Allowed(tree) && Closed(tree) && PlainTree(tree) && Laid(tree, depth, fmt) && Meaning(tree) == v
  }

  lemma {:induction false} TreePrints(v: Json, depth: nat, fmt: bool)
    requires Printable(v)
    ensures Prints(PrintTree(v, depth, fmt), v, depth, fmt)
    decreases v, 0
  {
    match v
    case Number(r) => NumberForIs(r.Floor);
    case String(s) => StringForIs(s);
    case Array(items) => ItemTreesPrint(items, depth, fmt, true);
    case Object(members) => ObjectTreePrints(members, depth, fmt);
    case _ =>
  }

  lemma {:induction false} ObjectTreePrints(members: seq<Member>, depth: nat, fmt: bool)
    requires PrintableMembers(members)
    ensures var gap := if members == [] && fmt then Indent(depth - 1) else "";
            Prints(ObjectTree(gap, EntryTrees(members, depth, fmt)), Object(members), depth, fmt)
    decreases members, 3
  {
    TabsAre(depth - 1);
    EntryTreesPrint(members, depth, fmt);
  }

  lemma {:induction false} ItemTreesPrint(items: seq<Json>, depth: nat, fmt: bool, first: bool)
    requires PrintableItems(items)
    ensures var r := ItemTrees(items, depth, fmt, first);
            AllowedItems(r) && PlainItems(r) && LaidItems(r, depth, fmt, first) && ItemsMeaning(r) == items
    decreases items, 1
  {
    if items != [] {
      TreePrints(items[0], depth + 1, fmt);
      ItemTreesPrint(items[1..], depth, fmt, false);
      var r := ItemTrees(items, depth, fmt, first);
      assert r[1..] == ItemTrees(items[1..], depth, fmt, false);
    }
  }

  lemma {:induction false} EntryTreePrints(m: Member, last: bool, depth: nat, fmt: bool)
    requires PrintableMember(m)
    ensures var x := EntryTree(m, last, depth, fmt);
            && AllowedName(x) && Space(x.after) && PlainString(x.name) && LaidName(x, depth, fmt)
            && (if fmt && last then IsIndent(x.after, depth) else x.after == "")
            && Prints(x.value, m.value, depth + 1, fmt) && StringMeaning(x.name) == m.name
    decreases m, 2
  {
    StringForIs(m.name);
    TabsAre(depth + 1);
    TabsAre(depth);
    TreePrints(m.value, depth + 1, fmt);
  }

  lemma {:induction false} EntryTreesPrint(members: seq<Member>, depth: nat, fmt: bool)
    requires PrintableMembers(members)
    ensures var r := EntryTrees(members, depth, fmt);
            AllowedEntries(r) && PlainEntries(r) && LaidEntries(r, depth, fmt) && EntriesMeaning(r) == members
    decreases members, 2
  {
    if members != [] {
      EntryTreePrints(members[0], |members| == 1, depth, fmt);
      EntryTreesPrint(members[1..], depth, fmt);
      var r := EntryTrees(members, depth, fmt);
      assert r[1..] == EntryTrees(members[1..], depth, fmt);
    }
  }

  // ----- and no other tree -----

  lemma {:induction false} TreeUnique(tree: Tree, v: Json, depth: nat, fmt: bool)
    requires Printable(v) && Prints(tree, v, depth, fmt)
    ensures tree == PrintTree(v, depth, fmt)
    decreases v, 0
  {
    match v
    case Number(r) => NumberUnique(tree.n, r.Floor);
    case String(s) => StringUnique(tree.s, s);
    case Array(items) => ItemsUnique(tree.items, items, depth, fmt, true);
    case Object(members) =>
      EntriesUnique(tree.entries, members, depth, fmt);
      if members == [] && fmt {
        IndentUnique(tree.gap, depth - 1);
      }
    case _ =>
  }

  lemma {:induction false} ItemsUnique(r: seq<Item>, items: seq<Json>, depth: nat, fmt: bool, first: bool)
    requires PrintableItems(items) && AllowedItems(r) && PlainItems(r) && LaidItems(r, depth, fmt, first)
    requires ItemsMeaning(r) == items
    ensures r == ItemTrees(items, depth, fmt, first)
    decreases items, 1
  {
    if r != [] {
      assert items[0] == Meaning(r[0].value) && items[1..] == ItemsMeaning(r[1..]);
      TreeUnique(r[0].value, items[0], depth + 1, fmt);
      ItemsUnique(r[1..], items[1..], depth, fmt, false);
      assert r == [r[0]] + r[1..];
    }
  }

  lemma {:induction false} EntryUnique(x: Entry, m: Member, last: bool, depth: nat, fmt: bool)
    requires PrintableMember(m) && AllowedName(x) && PlainString(x.name) && LaidName(x, depth, fmt)
    requires if fmt && last then IsIndent(x.after, depth) else x.after == ""
    requires StringMeaning(x.name) == m.name && Prints(x.value, m.value, depth + 1, fmt)
    ensures x == EntryTree(m, last, depth, fmt)
    decreases m, 2
  {
    StringUnique(x.name, m.name);
    TreeUnique(x.value, m.value, depth + 1, fmt);
    if fmt {
      IndentUnique(x.before, depth + 1);
      if last {
        IndentUnique(x.after, depth);
      }
    }
  }

  lemma {:induction false} EntriesUnique(r: seq<Entry>, members: seq<Member>, depth: nat, fmt: bool)
    requires PrintableMembers(members) && AllowedEntries(r) && PlainEntries(r) && LaidEntries(r, depth, fmt)
    requires EntriesMeaning(r) == members
    ensures r == EntryTrees(members, depth, fmt)
    decreases members, 2
  {
    if r != [] {
      assert members[0] == Member(StringMeaning(r[0].name), Meaning(r[0].value));
      assert members[1..] == EntriesMeaning(r[1..]) && |r| == |members|;
      EntryUnique(r[0], members[0], |r| == 1, depth, fmt);
      EntriesUnique(r[1..], members[1..], depth, fmt);
      assert r == [r[0]] + r[1..];
    }
  }

  // ----- its text is what is printed -----

  lemma NothingBefore(s: string)
    ensures "" + s == s
  {
  }

  lemma ArrayTextIs(r: seq<Item>, text: string)
    requires text == if r == [] then "" + "]" else ItemsText(r)
    ensures TextOf(ArrayTree("", r)) == "[" + text
  {
  }

  lemma {:induction false} ArrayText(items: seq<Json>, depth: nat, fmt: bool)
    requires PrintableItems(items)
    ensures TextOf(ArrayTree("", ItemTrees(items, depth, fmt, true))) == "[" + PrintItems(items, depth, fmt)
    decreases items, 2
  {
    var r, p := ItemTrees(items, depth, fmt, true), PrintItems(items, depth, fmt);
    if items == [] {
      ArrayTextIs(r, "" + "]");
    } else {
      ItemsPrinted(items, depth, fmt, true);
      NothingBefore(p);
      ArrayTextIs(r, p);
    }
  }

  lemma RegroupTail(m: string, comma: string, rest: string)
    ensures m + comma + rest == m + (comma + rest)
  {
  }

  lemma {:induction false} ObjectText(members: seq<Member>, depth: nat, fmt: bool)
    requires PrintableMembers(members)
    ensures "{" + (if members == [] then (if fmt then Indent(depth - 1) else "") + "}"
                   else EntriesText(EntryTrees(members, depth, fmt))) ==
            Print(Object(members), depth, fmt)
    decreases members, 2
  {
    if members == [] {
      TabsAre(depth - 1);
      RegroupTail("{", if fmt then Indent(depth - 1) else "", "}");
    } else {
      EntriesPrinted(members, depth, fmt);
      RegroupTail("{", If(fmt, "\n"), PrintMembers(members, depth, fmt));
    }
  }

  lemma {:induction false} TreeText(v: Json, depth: nat, fmt: bool)
    requires Printable(v)
    ensures TextOf(PrintTree(v, depth, fmt)) == Print(v, depth, fmt)
    decreases v, 0
  {
    match v
    case Number(r) => NumberForIs(r.Floor);
    case String(s) => StringForIs(s);
    case Array(items) => ArrayText(items, depth, fmt);
    case Object(members) => ObjectText(members, depth, fmt);
    case _ =>
  }

  lemma RegroupItem(lead: string, x: string, comma: string, gap: string, rest: string)
    ensures lead + x + "" + (comma + (gap + rest)) == lead + (x + (comma + gap) + rest)
  {
  }

  lemma {:induction false} ItemsPrinted(items: seq<Json>, depth: nat, fmt: bool, first: bool)
    requires items != [] && PrintableItems(items)
    ensures ItemsText(ItemTrees(items, depth, fmt, first)) ==
            (if fmt && !first then " " else "") + PrintItems(items, depth, fmt)
    decreases items, 1
  {
    var lead, x := if fmt && !first then " " else "", Print(items[0], depth + 1, fmt);
    var r := ItemTrees(items, depth, fmt, first);
    TreeText(items[0], depth + 1, fmt);
    if |items| == 1 {
      assert items[1..] == [] && x + "" + "]" == x + "]";
      assert lead + x + "" + "]" == lead + (x + "" + "]");
    } else {
      assert r[1..] == ItemTrees(items[1..], depth, fmt, false);
      ItemsPrinted(items[1..], depth, fmt, false);
      RegroupItem(lead, x, ",", If(fmt, " "), PrintItems(items[1..], depth, fmt));
    }
  }

  lemma RegroupEntry(nl: string, tabs: string, name: string, gap: string, x: string, a: string, rest: string)
    ensures ((nl + tabs) + name + "" + ":") + (gap + x + a + rest) ==
            nl + ((tabs + name + (":" + gap) + x) + (a + rest))
  {
  }

  lemma RegroupLast(nl: string, tabs: string)
    ensures (nl + tabs) + "}" == ("" + nl) + (tabs + "}")
  {
  }

  lemma RegroupMore(nl: string, rest: string)
    ensures "" + ("," + (nl + rest)) == ("," + nl) + rest
  {
  }

  lemma IndentIs(fmt: bool, n: int)
    ensures If(fmt, Indent(n)) == If(fmt, "\n") + If(fmt, Tabs(n))
  {
    TabsAre(n);
  }

  /** One entry, with what is printed for it and behind it. */
  lemma {:induction false} EntryPrinted(m: Member, last: bool, depth: nat, fmt: bool, rest: string, tail: string)
    requires PrintableMember(m) && EntryTree(m, last, depth, fmt).after + rest == tail
    requires TextOf(PrintTree(m.value, depth + 1, fmt)) == Print(m.value, depth + 1, fmt)
    ensures var x := EntryTree(m, last, depth, fmt);
            NameText(x) + (x.gap + TextOf(x.value) + x.after + rest) ==
            If(fmt, "\n") + (PrintMember(m, depth, fmt) + tail)
  {
    var x := EntryTree(m, last, depth, fmt);
    StringForIs(m.name);
    IndentIs(fmt, depth + 1);
    RegroupEntry(If(fmt, "\n"), If(fmt, Tabs(depth + 1)), Quote(m.name), If(fmt, "\t"), Print(m.value, depth + 1, fmt),
                 x.after, rest);
  }

  lemma {:induction false} LastEntryPrinted(m: Member, depth: nat, fmt: bool)
    requires PrintableMember(m)
    requires TextOf(PrintTree(m.value, depth + 1, fmt)) == Print(m.value, depth + 1, fmt)
    ensures PrintableMembers([m])
    ensures EntriesText(EntryTrees([m], depth, fmt)) == If(fmt, "\n") + PrintMembers([m], depth, fmt)
  {
    var nl, tabs := If(fmt, "\n"), If(fmt, Tabs(depth));
    assert [m][1..] == [] && PrintableMembers([]);
    IndentIs(fmt, depth);
    RegroupLast(nl, tabs);
    EntryPrinted(m, true, depth, fmt, "}", ("" + nl) + (tabs + "}"));
    RegroupTail(PrintMember(m, depth, fmt), "" + nl, tabs + "}");
  }

  lemma {:induction false} EntriesPrinted(members: seq<Member>, depth: nat, fmt: bool)
    requires members != [] && PrintableMembers(members)
    ensures EntriesText(EntryTrees(members, depth, fmt)) == If(fmt, "\n") + PrintMembers(members, depth, fmt)
    decreases members, 1
  {
    TreeText(members[0].value, depth + 1, fmt);
    if |members| == 1 {
      assert members == [members[0]];
      LastEntryPrinted(members[0], depth, fmt);
    } else {
      var nl, r := If(fmt, "\n"), EntryTrees(members, depth, fmt);
      var rest := PrintMembers(members[1..], depth, fmt);
      assert r[1..] == EntryTrees(members[1..], depth, fmt);
      EntriesPrinted(members[1..], depth, fmt);
      RegroupMore(nl, rest);
      EntryPrinted(members[0], false, depth, fmt, "," + (nl + rest), ("," + nl) + rest);
      RegroupTail(PrintMember(members[0], depth, fmt), "," + nl, rest);
    }
  }

  /** A text is what is printed for a value exactly if it is that of a tree which means
      the value and has that layout and those numbers and escapes. */
  lemma {:induction false} PrintedExactlyWhen(s: string, v: Json, depth: nat, fmt: bool)
    requires Printable(v)
    ensures s == Print(v, depth, fmt) <==> exists tree :: Prints(tree, v, depth, fmt) && s == TextOf(tree)
  {
    TreePrints(v, depth, fmt);
    TreeText(v, depth, fmt);
    if tree :| Prints(tree, v, depth, fmt) && s == TextOf(tree) {
      TreeUnique(tree, v, depth, fmt);
    }
  }

  // ----- and a text of RFC 8259 -----

  lemma {:induction false} PlainIsStrict(tree: Tree, depth: nat, fmt: bool)
    requires Allowed(tree) && PlainTree(tree) && Laid(tree, depth, fmt)
    ensures Strict(tree)
    decreases tree, 0
  {
    match tree
    case ArrayTree(_, items) => PlainItemsAreStrict(items, depth, fmt, true);
    case ObjectTree(_, entries) => PlainEntriesAreStrict(entries, depth, fmt);
    case _ =>
  }

  lemma {:induction false} PlainItemsAreStrict(items: seq<Item>, depth: nat, fmt: bool, first: bool)
    requires AllowedItems(items) && PlainItems(items) && LaidItems(items, depth, fmt, first)
    ensures StrictItems(items)
    decreases items, 1
  {
    if items != [] {
      PlainIsStrict(items[0].value, depth + 1, fmt);
      PlainItemsAreStrict(items[1..], depth, fmt, false);
    }
  }

  lemma {:induction false} PlainEntriesAreStrict(entries: seq<Entry>, depth: nat, fmt: bool)
    requires AllowedEntries(entries) && PlainEntries(entries) && LaidEntries(entries, depth, fmt)
    ensures StrictEntries(entries)
    decreases entries, 1
  {
    if entries != [] {
      PlainIsStrict(entries[0].value, depth + 1, fmt);
      PlainEntriesAreStrict(entries[1..], depth, fmt);
    }
  }

  /** What is printed is a text of RFC 8259. */
  lemma {:induction false} PrintIsJson(v: Json, depth: nat, fmt: bool)
    requires Printable(v)
    ensures Strict(PrintTree(v, depth, fmt)) && TextOf(PrintTree(v, depth, fmt)) == Print(v, depth, fmt)
  {
    TreePrints(v, depth, fmt);
    TreeText(v, depth, fmt);
    PlainIsStrict(PrintTree(v, depth, fmt), depth, fmt);
  }
}
