/**
 `cJSON_Minify` (`src/cJSON/cJSON.c`): what it leaves of a text, the in-place
 code, and what that does to printed values and to token sequences.
 */
module JsonMinify {
  import opened CStrings
  import opened JsonText
  import opened JsonPrint

  /** What the scanner does at a position: pass over text, keep text, or run past
      the terminator because a string or a block comment is not closed. */
  datatype Piece = Drop(next: nat) | Keep(next: nat) | Open

  predicate IsBlank(c: char) {
    c == ' ' || c == '\t' || c == '\r' || c == '\n'
  }

  function LineEnd(t: string, i: nat): (j: nat)
    requires i <= |t|
    ensures i <= j <= |t|
    decreases |t| - i
  {
    if At(t, i) == '\0' || At(t, i) == '\n' then i else LineEnd(t, i + 1)
  }

  predicate ClosesBlock(t: string, i: nat)
    requires i <= |t|
  {
    At(t, i) == '*' && At(t, i + 1) == '/'
  }

  function BlockEnd(t: string, i: nat): (j: nat)
    requires i <= |t|
    ensures i <= j <= |t|
    ensures At(t, j) == '\0' || ClosesBlock(t, j)
    decreases |t| - i
  {
    if At(t, i) == '\0' || ClosesBlock(t, i) then i else BlockEnd(t, i + 1)
  }

  /** The closing quote of the string literal whose body starts at `i`, or `|t| + 1`. */
  function StringEnd(t: string, i: nat): (j: nat)
    requires i <= |t|
    ensures i <= j <= |t| + 1 && j != |t|
    ensures j < |t| ==> t[j] == '\"'
    decreases |t| - i
  {
    if At(t, i) == '\"' then i
    else if At(t, i) == '\0' then |t| + 1
    else if t[i] != '\\' then StringEnd(t, i + 1)
    else if At(t, i + 1) == '\0' then |t| + 1
    else StringEnd(t, i + 2)
  }

  function PieceAt(t: string, i: nat): (p: Piece)
    requires i < |t|
    ensures p.Drop? || p.Keep? ==> i < p.next <= |t|
  {
    if IsBlank(t[i]) then Drop(i + 1)
    else if t[i] == '/' && At(t, i + 1) == '/' then Drop(LineEnd(t, i + 1))
    else if t[i] == '/' && At(t, i + 1) == '*' then
      var j := BlockEnd(t, i);
      if At(t, j) == '\0' then Open else Drop(j + 2)
    else if t[i] == '\"' then
      var j := StringEnd(t, i + 1);
      if j > |t| then Open else Keep(j + 1)
    else Keep(i + 1)
  }

  /** Every string and block comment the scanner meets is closed. */
  predicate Minifiable(t: string, i: nat)
    requires i <= |t|
    decreases |t| - i
  {
    At(t, i) == '\0' || (!PieceAt(t, i).Open? && Minifiable(t, PieceAt(t, i).next))
  }

  function Minify(t: string, i: nat): (m: string)
    requires i <= |t| && Minifiable(t, i)
    ensures |m| <= |t| - i
    decreases |t| - i
  {
    if At(t, i) == '\0' then ""
    else
      match PieceAt(t, i)
      case Drop(next) => Minify(t, next)
      case Keep(next) => t[i..next] + Minify(t, next)
  }

  // ----- what stays and what goes -----

  predicate IsPlain(c: char) {
    c != '\0' && c != '\"' && c != '/' && !IsBlank(c)
  }

  /** Of the text between `i` and `e` minifying leaves `p`, whatever follows. */
  ghost predicate Leaves(t: string, i: nat, e: nat, p: string) {
    && i <= e <= |t|
    && (Minifiable(t, e) ==> Minifiable(t, i) && Minify(t, i) == p + Minify(t, e))
  }

  lemma Together(t: string, i: nat, j: nat, e: nat, p: string, q: string)
    requires Leaves(t, i, j, p) && Leaves(t, j, e, q)
    ensures Leaves(t, i, e, p + q)
  {
    if Minifiable(t, e) {
      assert p + (q + Minify(t, e)) == (p + q) + Minify(t, e);
    }
  }

  lemma ThreeTogether(t: string, i: nat, j: nat, k: nat, e: nat, p: string, q: string, r: string)
    requires Leaves(t, i, j, p) && Leaves(t, j, k, q) && Leaves(t, k, e, r)
    ensures Leaves(t, i, e, p + q + r)
  {
    Together(t, i, j, k, p, q);
    Together(t, i, k, e, p + q, r);
  }

  lemma NothingLeft(t: string, i: nat)
    requires i <= |t|
    ensures Leaves(t, i, i, "")
  {
    if Minifiable(t, i) {
      assert "" + Minify(t, i) == Minify(t, i);
    }
  }

  lemma PlainStays(t: string, i: nat, c: char)
    requires Has(t, i, [c]) && IsPlain(c)
    ensures Leaves(t, i, i + 1, [c])
  {
    HasChar(t, i, c);
  }

  lemma {:induction false} PlainsStay(t: string, i: nat, p: string, e: nat)
    requires Has(t, i, p) && (forall k :: 0 <= k < |p| ==> IsPlain(p[k])) && e == i + |p|
    ensures Leaves(t, i, e, p)
    decreases p
  {
    if p == [] {
      NothingLeft(t, i);
    } else {
      assert p == [p[0]] + p[1..];
      HasAppend(t, i, [p[0]], p[1..]);
      PlainStays(t, i, p[0]);
      PlainsStay(t, i + 1, p[1..], e);
      Together(t, i, i + 1, e, [p[0]], p[1..]);
    }
  }

  lemma BlankGoes(t: string, i: nat, c: char)
    requires Has(t, i, [c]) && IsBlank(c)
    ensures Leaves(t, i, i + 1, "")
  {
    HasChar(t, i, c);
    if Minifiable(t, i + 1) {
      assert "" + Minify(t, i + 1) == Minify(t, i + 1);
    }
  }

  lemma {:induction false} BlanksGo(t: string, i: nat, p: string, e: nat)
    requires Has(t, i, p) && (forall k :: 0 <= k < |p| ==> IsBlank(p[k])) && e == i + |p|
    ensures Leaves(t, i, e, "")
    decreases p
  {
    if p == [] {
      NothingLeft(t, i);
    } else {
      assert p == [p[0]] + p[1..];
      HasAppend(t, i, [p[0]], p[1..]);
      BlankGoes(t, i, p[0]);
      BlanksGo(t, i + 1, p[1..], e);
      Together(t, i, i + 1, e, "", "");
    }
  }

  lemma LiteralStays(t: string, i: nat, p: string, e: nat)
    requires Has(t, i, p) && |p| > 1 && p[0] == '\"' && e == i + |p|
    requires StringEnd(t, i + 1) == e - 1
    ensures Leaves(t, i, e, p)
  {
    HasAt(t, i, p, 0);
    assert t[i..e] == p;
  }

  // ----- printed values -----

  lemma EscapedCharIsInside(t: string, i: nat, c: char, e: nat)
    requires c != '\0' && Has(t, i, EscapeChar(c)) && e == i + |EscapeChar(c)|
    ensures e <= |t| && StringEnd(t, i) == StringEnd(t, e)
  {
    var p := EscapeChar(c);
    HasAt(t, i, p, 0);
    if |p| > 1 {
      HasAt(t, i, p, 1);
      if |p| == 6 {
        HasAt(t, i, p, 2);
        HasAt(t, i, p, 3);
        HasAt(t, i, p, 4);
        HasAt(t, i, p, 5);
        assert StringEnd(t, i + 2) == StringEnd(t, i + 3) == StringEnd(t, i + 4);
        assert StringEnd(t, i + 4) == StringEnd(t, i + 5) == StringEnd(t, i + 6);
      }
    }
  }

  lemma {:induction false} EscapeIsInside(t: string, i: nat, s: string)
    requires CString(s) && Has(t, i, Escape(s)) && At(t, i + |Escape(s)|) == '\"'
    ensures StringEnd(t, i) == i + |Escape(s)|
    decreases s
  {
    if s != [] {
      var e := i + |EscapeChar(s[0])|;
      HasAppend(t, i, EscapeChar(s[0]), Escape(s[1..]));
      EscapedCharIsInside(t, i, s[0], e);
      EscapeIsInside(t, e, s[1..]);
    }
  }

  lemma QuoteStays(t: string, i: nat, s: string, e: nat)
    requires CString(s) && Has(t, i, Quote(s)) && e == i + |Quote(s)|
    ensures Leaves(t, i, e, Quote(s))
  {
    HasThree(t, i, "\"", Escape(s), "\"");
    HasChar(t, e - 1, '\"');
    EscapeIsInside(t, i + 1, s);
    LiteralStays(t, i, Quote(s), e);
  }

  lemma {:induction false} DigitsArePlain(n: nat)
    ensures forall k :: 0 <= k < |Digits(n)| ==> IsPlain(Digits(n)[k])
  {
    if n >= 10 {
      DigitsArePlain(n / 10);
    }
  }

  lemma DecimalIsPlain(n: int)
    ensures forall k :: 0 <= k < |Decimal(n)| ==> IsPlain(Decimal(n)[k])
  {
    DigitsArePlain(if n < 0 then -n else n);
  }

  lemma {:induction false} TabsAreBlank(n: int)
    ensures forall k :: 0 <= k < |Tabs(n)| ==> IsBlank(Tabs(n)[k])
  {
    if n > 0 {
      TabsAreBlank(n - 1);
    }
  }

  /** A character that stays and white space that goes. */
  lemma MarkAndGap(t: string, i: nat, c: char, gap: string, e: nat)
    requires Has(t, i, [c] + gap) && IsPlain(c) && e == i + 1 + |gap|
    requires forall k :: 0 <= k < |gap| ==> IsBlank(gap[k])
    ensures Leaves(t, i, e, [c])
  {
    HasAppend(t, i, [c], gap);
    PlainStays(t, i, c);
    BlanksGo(t, i + 1, gap, e);
    Together(t, i, i + 1, e, [c], "");
    assert [c] + "" == [c];
  }

  lemma GapAndMark(t: string, i: nat, gap: string, c: char, e: nat)
    requires Has(t, i, gap + [c]) && IsPlain(c) && e == i + |gap| + 1
    requires forall k :: 0 <= k < |gap| ==> IsBlank(gap[k])
    ensures Leaves(t, i, e, [c])
  {
    HasAppend(t, i, gap, [c]);
    BlanksGo(t, i, gap, i + |gap|);
    PlainStays(t, i + |gap|, c);
    Together(t, i, i + |gap|, e, "", [c]);
    assert "" + [c] == [c];
  }

  lemma {:induction false} ValueMinifies(v: Json, depth: nat, depth': nat, fmt: bool, t: string, i: nat, e: nat)
    requires Printable(v) && Has(t, i, Print(v, depth, fmt)) && e == i + |Print(v, depth, fmt)|
    ensures Leaves(t, i, e, Print(v, depth', false))
    decreases v, 0
  {
    match v
    case Null => PlainsStay(t, i, "null", e);
    case False => PlainsStay(t, i, "false", e);
    case True => PlainsStay(t, i, "true", e);
    case Number(r) =>
      DecimalIsPlain(r.Floor);
      PlainsStay(t, i, Decimal(r.Floor), e);
    case String(s) => QuoteStays(t, i, s, e);
    case Array(items) =>
      HasAppend(t, i, "[", PrintItems(items, depth, fmt));
      PlainStays(t, i, '[');
      ItemsMinify(items, depth, depth', fmt, t, i + 1, e);
      Together(t, i, i + 1, e, "[", PrintItems(items, depth', false));
    case Object(members) => ObjectMinifies(members, depth, depth', fmt, t, i, e);
  }

  function FirstItem(v: Json, more: bool, depth: nat, fmt: bool): string
    requires Printable(v)
  {
    Print(v, depth + 1, fmt) + (if more then "," + If(fmt, " ") else "")
  }

  lemma {:induction false} ItemsMinify(items: seq<Json>, depth: nat, depth': nat, fmt: bool, t: string, i: nat, e: nat)
    requires PrintableItems(items) && Has(t, i, PrintItems(items, depth, fmt))
    requires e == i + |PrintItems(items, depth, fmt)|
    ensures Leaves(t, i, e, PrintItems(items, depth', false))
    decreases items, 1
  {
    if items == [] {
      PlainStays(t, i, ']');
    } else {
      var more := |items| > 1;
      var first, rest := FirstItem(items[0], more, depth, fmt), PrintItems(items[1..], depth, fmt);
      var k := i + |first|;
      HasAppend(t, i, first, rest);
      FirstItemMinifies(items[0], more, depth, depth', fmt, t, i, k);
      ItemsMinify(items[1..], depth, depth', fmt, t, k, e);
      Together(t, i, k, e, FirstItem(items[0], more, depth', false), PrintItems(items[1..], depth', false));
    }
  }

  lemma SeparatorMinifies(t: string, i: nat, more: bool, fmt: bool, e: nat)
    requires var sep := if more then "," + If(fmt, " ") else ""; Has(t, i, sep) && e == i + |sep|
    ensures Leaves(t, i, e, if more then "," + If(false, " ") else "")
  {
    if more {
      MarkAndGap(t, i, ',', If(fmt, " "), e);
      assert "," + If(false, " ") == ",";
    } else {
      NothingLeft(t, i);
    }
  }

  lemma {:induction false} FirstItemMinifies(v: Json, more: bool, depth: nat, depth': nat, fmt: bool,
                                             t: string, i: nat, k: nat)
    requires Printable(v) && Has(t, i, FirstItem(v, more, depth, fmt)) && k == i + |FirstItem(v, more, depth, fmt)|
    ensures Leaves(t, i, k, FirstItem(v, more, depth', false))
    decreases v, 1
  {
    var text, sep := Print(v, depth + 1, fmt), if more then "," + If(fmt, " ") else "";
    var j := i + |text|;
    HasAppend(t, i, text, sep);
    ValueMinifies(v, depth + 1, depth' + 1, fmt, t, i, j);
    SeparatorMinifies(t, j, more, fmt, k);
    Together(t, i, j, k, Print(v, depth' + 1, false), if more then "," + If(false, " ") else "");
  }

  lemma BracesMinify(t: string, i: nat, gap: string, e: nat)
    requires Has(t, i, "{" + gap + "}") && e == i + |gap| + 2
    requires forall k :: 0 <= k < |gap| ==> IsBlank(gap[k])
    ensures Leaves(t, i, e, "{}")
  {
    HasAppend(t, i, "{" + gap, "}");
    MarkAndGap(t, i, '{', gap, e - 1);
    PlainStays(t, e - 1, '}');
    Together(t, i, e - 1, e, "{", "}");
  }

  lemma EmptyObjectMinifies(depth: nat, depth': nat, fmt: bool, t: string, i: nat, e: nat)
    requires Has(t, i, Print(Object([]), depth, fmt)) && e == i + |Print(Object([]), depth, fmt)|
    ensures Leaves(t, i, e, Print(Object([]), depth', false))
  {
    TabsAreBlank(depth - 1);
    BracesMinify(t, i, If(fmt, "\n" + Tabs(depth - 1)), e);
    assert If(false, "\n" + Tabs(depth' - 1)) == "";
    assert "{" + "" + "}" == "{}";
  }

  lemma {:induction false} ObjectMinifies(members: seq<Member>, depth: nat, depth': nat, fmt: bool, t: string,
                   i: nat, e: nat)
    requires PrintableMembers(members) && Has(t, i, Print(Object(members), depth, fmt))
    requires e == i + |Print(Object(members), depth, fmt)|
    ensures Leaves(t, i, e, Print(Object(members), depth', false))
    decreases members, 2
  {
    if members == [] {
      EmptyObjectMinifies(depth, depth', fmt, t, i, e);
    } else {
      var gap := If(fmt, "\n");
      var k := i + 1 + |gap|;
      HasAppend(t, i, "{" + gap, PrintMembers(members, depth, fmt));
      MarkAndGap(t, i, '{', gap, k);
      MembersMinify(members, depth, depth', fmt, t, k, e);
      assert "{" + If(false, "\n") == "{";
      Together(t, i, k, e, "{" + If(false, "\n"), PrintMembers(members, depth', false));
    }
  }

  lemma {:induction false} MemberMinifies(m: Member, depth: nat, depth': nat, fmt: bool, t: string, i: nat, e: nat)
    requires PrintableMember(m) && Has(t, i, PrintMember(m, depth, fmt))
    requires e == i + |PrintMember(m, depth, fmt)|
    ensures Leaves(t, i, e, PrintMember(m, depth', false))
    decreases m, 1
  {
    var tabs, key, colon := If(fmt, Tabs(depth + 1)), Quote(m.name), ":" + If(fmt, "\t");
    var value := Print(m.value, depth + 1, fmt);
    var k := i + |tabs|;
    var c := k + |key|;
    var v := c + |colon|;
    HasFour(t, i, tabs, key, colon, value);
    TabsAreBlank(depth + 1);
    BlanksGo(t, i, tabs, k);
    QuoteStays(t, k, m.name, c);
    MarkAndGap(t, c, ':', If(fmt, "\t"), v);
    ValueMinifies(m.value, depth + 1, depth' + 1, fmt, t, v, e);
    assert ":" + If(false, "\t") == ":";
    ThreeTogether(t, i, k, c, v, "", key, ":" + If(false, "\t"));
    Together(t, i, v, e, "" + key + (":" + If(false, "\t")), Print(m.value, depth' + 1, false));
  }

  function FirstMember(m: Member, more: bool, depth: nat, fmt: bool): string
    requires PrintableMember(m)
  {
    PrintMember(m, depth, fmt) + ((if more then "," else "") + If(fmt, "\n"))
  }

  lemma {:induction false} MembersMinify(members: seq<Member>, depth: nat, depth': nat, fmt: bool, t: string, i: nat,
                                         e: nat)
    requires PrintableMembers(members) && Has(t, i, PrintMembers(members, depth, fmt))
    requires e == i + |PrintMembers(members, depth, fmt)|
    ensures Leaves(t, i, e, PrintMembers(members, depth', false))
    decreases members, 1
  {
    if members == [] {
      TabsAreBlank(depth);
      GapAndMark(t, i, If(fmt, Tabs(depth)), '}', e);
      assert If(false, Tabs(depth')) + "}" == "}";
    } else {
      var more := |members| > 1;
      var first, rest := FirstMember(members[0], more, depth, fmt), PrintMembers(members[1..], depth, fmt);
      var k := i + |first|;
      HasAppend(t, i, first, rest);
      FirstMemberMinifies(members[0], more, depth, depth', fmt, t, i, k);
      MembersMinify(members[1..], depth, depth', fmt, t, k, e);
      Together(t, i, k, e, FirstMember(members[0], more, depth', false), PrintMembers(members[1..], depth', false));
    }
  }

  lemma LineBreakMinifies(t: string, i: nat, comma: string, fmt: bool, e: nat)
    requires comma == "," || comma == ""
    requires Has(t, i, comma + If(fmt, "\n")) && e == i + |comma + If(fmt, "\n")|
    ensures Leaves(t, i, e, comma + If(false, "\n"))
  {
    HasAppend(t, i, comma, If(fmt, "\n"));
    PlainsStay(t, i, comma, i + |comma|);
    BlanksGo(t, i + |comma|, If(fmt, "\n"), e);
    Together(t, i, i + |comma|, e, comma, "");
  }

  lemma {:induction false} FirstMemberMinifies(m: Member, more: bool, depth: nat, depth': nat, fmt: bool,
                                               t: string, i: nat, k: nat)
    requires PrintableMember(m) && Has(t, i, FirstMember(m, more, depth, fmt))
    requires k == i + |FirstMember(m, more, depth, fmt)|
    ensures Leaves(t, i, k, FirstMember(m, more, depth', false))
    decreases m, 2
  {
    var text, comma := PrintMember(m, depth, fmt), if more then "," else "";
    var j := i + |text|;
    HasAppend(t, i, text, comma + If(fmt, "\n"));
    MemberMinifies(m, depth, depth', fmt, t, i, j);
    LineBreakMinifies(t, j, comma, fmt, k);
    Together(t, i, j, k, PrintMember(m, depth', false), comma + If(false, "\n"));
  }

  /** Minifying either printed form gives the unformatted form byte for byte,
      whatever depths the two are printed at. */
  lemma MinifyOfPrint(v: Json, depth: nat, depth': nat, fmt: bool)
    requires Printable(v)
    ensures Minifiable(Print(v, depth, fmt), 0)
    ensures Minify(Print(v, depth, fmt), 0) == Print(v, depth', false)
  {
    var t := Print(v, depth, fmt);
    ValueMinifies(v, depth, depth', fmt, t, 0, |t|);
    assert Minify(t, |t|) == "";
    assert Print(v, depth', false) + "" == Print(v, depth', false);
  }
}
