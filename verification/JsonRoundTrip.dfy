/**
 Parsing undoes printing, at any depth and in both printed forms.
 */
module JsonRoundTrip {
  import opened CStrings
  import opened JsonText
  import opened JsonPrint
  import opened JsonParse

  // ----- strings -----

  lemma HexCharValue(d: nat)
    requires d < 16
    ensures IsHex(HexChar(d)) && HexValue(HexChar(d)) == d
  {
  }

  lemma ControlCharParses(t: string, i: nat, c: char)
    requires '\0' < c <= 31 as char
    requires Has(t, i, "\\u00" + [HexChar(c as int / 16), HexChar(c as int % 16)])
    requires i < |t| && t[i] == '\\'
    ensures EscapeAt(t, i) == Emit([c], i + 6)
  {
    var p := "\\u00" + [HexChar(c as int / 16), HexChar(c as int % 16)];
    HasAt(t, i, p, 0);
    HasAt(t, i, p, 1);
    HasAt(t, i, p, 2);
    HasAt(t, i, p, 3);
    HasAt(t, i, p, 4);
    HasAt(t, i, p, 5);
    HexCharValue(c as int / 16);
    HexCharValue(c as int % 16);
    assert Hex4(t, i + 2) == c as int;
  }

  lemma EscapedCharParses(t: string, i: nat, c: char)
    requires c != '\0' && Has(t, i, EscapeChar(c))
    requires !(c > 31 as char && c != '\"' && c != '\\')
    ensures i < |t| && t[i] == '\\'
    ensures EscapeAt(t, i) == Emit([c], i + |EscapeChar(c)|)
  {
    HasAt(t, i, EscapeChar(c), 0);
    HasAt(t, i, EscapeChar(c), 1);
    if |EscapeChar(c)| == 6 {
      ControlCharParses(t, i, c);
    }
  }

  lemma CharParses(t: string, i: nat, c: char, e: nat)
    requires c != '\0' && Has(t, i, EscapeChar(c)) && e == i + |EscapeChar(c)|
    ensures e <= |t| && Unescape(t, i) == Prepend([c], Unescape(t, e))
  {
    if c > 31 as char && c != '\"' && c != '\\' {
      HasAt(t, i, EscapeChar(c), 0);
    } else {
      EscapedCharParses(t, i, c);
    }
  }

  lemma {:induction false} EscapeHead(t: string, i: nat, s: string, e: nat)
    requires s != [] && CString(s) && Has(t, i, Escape(s)) && e == i + |EscapeChar(s[0])|
    ensures Has(t, i, EscapeChar(s[0])) && Has(t, e, Escape(s[1..])) && CString(s[1..]) && s[0] != '\0'
    ensures i + |Escape(s)| == e + |Escape(s[1..])| && s == [s[0]] + s[1..]
  {
    HasAppend(t, i, EscapeChar(s[0]), Escape(s[1..]));
  }

  lemma {:induction false} EscapeParses(t: string, i: nat, s: string)
    requires CString(s) && Has(t, i, Escape(s))
    requires At(t, i + |Escape(s)|) == '\"'
    ensures Unescape(t, i) == Text(s, i + |Escape(s)|)
    decreases s
  {
    if s != [] {
      var e := i + |EscapeChar(s[0])|;
      EscapeHead(t, i, s, e);
      EscapeParses(t, e, s[1..]);
      CharParses(t, i, s[0], e);
    }
  }

  lemma QuoteParses(t: string, i: nat, s: string)
    requires CString(s) && Has(t, i, Quote(s))
    ensures At(t, i) == '\"' && ParseString(t, i) == Text(s, i + |Quote(s)|)
  {
    HasThree(t, i, "\"", Escape(s), "\"");
    HasChar(t, i, '\"');
    HasChar(t, i + 1 + |Escape(s)|, '\"');
    EscapeParses(t, i + 1, s);
  }

  // ----- numbers -----

  predicate EndsNumber(c: char) {
    !IsDigit(c) && c != '.' && c != 'e' && c != 'E'
  }

  lemma {:induction false} AccumulateLast(t: string, i: nat, j: nat, n: real)
    requires i <= j < |t|
    ensures Accumulate(t, i, j + 1, n) == Accumulate(t, i, j, n) * 10.0 + DigitValue(t[j]) as real
    decreases j - i
  {
    if i < j {
      AccumulateLast(t, i + 1, j, n * 10.0 + DigitValue(t[i]) as real);
    }
  }

  lemma {:induction false} DigitsAccumulate(t: string, i: nat, n: nat)
    requires Has(t, i, Digits(n))
    ensures forall k :: i <= k < i + |Digits(n)| ==> IsDigit(t[k])
    ensures Accumulate(t, i, i + |Digits(n)|, 0.0) == n as real
    ensures n > 0 ==> t[i] != '0'
  {
    if n < 10 {
      HasAt(t, i, Digits(n), 0);
      assert Accumulate(t, i + 1, i + 1, n as real) == n as real;
    } else {
      var j := i + |Digits(n / 10)|;
      HasAppend(t, i, Digits(n / 10), [DigitChar(n % 10)]);
      HasChar(t, j, DigitChar(n % 10));
      DigitsAccumulate(t, i, n / 10);
      AccumulateLast(t, i, j, 0.0);
    }
  }

  lemma {:induction false} DigitRunUnique(t: string, i: nat, j: nat)
    requires i <= j <= |t|
    requires forall k :: i <= k < j ==> IsDigit(t[k])
    requires !IsDigit(At(t, j))
    ensures DigitRun(t, i) == j
    decreases j - i
  {
    if i < j {
      DigitRunUnique(t, i + 1, j);
    }
  }

  /** Where a number without point and exponent ends, and what it is. */
  lemma WholeNumber(t: string, i: nat, a: nat, b: nat, n: real)
    requires i <= a <= b <= |t| && IntegerStart(t, i) == a && IntegerEnd(t, i) == b
    requires EndsNumber(At(t, b)) && Accumulate(t, a, b, 0.0) == n
    ensures NumberEnd(t, i) == b
    ensures NumberValue(t, i) == if At(t, i) == '-' then -n else n
  {
    assert FractionEnd(t, b) == b && Mantissa(t, i) == n && Scale(t, i) == 0;
    assert Power10(0) == 1.0;
  }

  lemma SignedDigitsParse(t: string, i: nat, n: nat)
    requires i <= |t|
    requires var p := if At(t, i) == '-' then i + 1 else i;
             && p <= |t| && Has(t, p, Digits(n)) && EndsNumber(At(t, p + |Digits(n)|))
    ensures var p := if At(t, i) == '-' then i + 1 else i;
            && NumberEnd(t, i) == p + |Digits(n)|
            && NumberValue(t, i) == (if At(t, i) == '-' then -(n as real) else n as real)
  {
    var p := if At(t, i) == '-' then i + 1 else i;
    var q := p + |Digits(n)|;
    DigitsAccumulate(t, p, n);
    DigitRunUnique(t, p, q);
    if n == 0 {
      HasAt(t, p, Digits(0), 0);
      assert Digits(0) == "0";
      assert IntegerStart(t, i) == p + 1 == IntegerEnd(t, i);
      WholeNumber(t, i, q, q, 0.0);
    } else {
      assert IntegerStart(t, i) == p && IntegerEnd(t, i) == q;
      WholeNumber(t, i, p, q, n as real);
    }
  }

  lemma DecimalParses(t: string, i: nat, n: int)
    requires Has(t, i, Decimal(n)) && EndsNumber(At(t, i + |Decimal(n)|))
    ensures At(t, i) == '-' || IsDigit(At(t, i))
    ensures NumberEnd(t, i) == i + |Decimal(n)| && NumberValue(t, i) == n as real
  {
    HasAt(t, i, Decimal(n), 0);
    if n < 0 {
      HasAppend(t, i, "-", Digits(-n));
      SignedDigitsParse(t, i, -n);
    } else {
      SignedDigitsParse(t, i, n);
    }
  }

  // ----- values -----

  lemma PrintStarts(v: Json, depth: nat, fmt: bool)
    requires Printable(v)
    ensures |Print(v, depth, fmt)| > 0 && !IsSpace(Print(v, depth, fmt)[0])
    ensures Print(v, depth, fmt)[0] != ']'
  {
  }

  // Where things stand in a list: an entry followed by a comma and more, or by
  // the closing bracket.

  lemma SkipGap(t: string, i: nat, gap: string)
    requires Has(t, i, gap) && AllSpace(gap)
    ensures Skip(t, i) == Skip(t, i + |gap|)
    decreases gap
  {
    if gap != [] {
      HasAppend(t, i, [gap[0]], gap[1..]);
      assert gap == [gap[0]] + gap[1..];
      HasChar(t, i, gap[0]);
      SkipGap(t, i + 1, gap[1..]);
    }
  }

  lemma EntryThenMore(t: string, i: nat, entry: string, gap: string, more: string, e: nat, k: nat)
    requires Has(t, i, entry + ("," + gap) + more) && AllSpace(gap)
    requires e == i + |entry| && k == e + 1 + |gap|
    ensures Has(t, i, entry) && Has(t, k, more)
    ensures e < |t| && t[e] == ',' && Skip(t, e) == e && Skip(t, e + 1) == Skip(t, k)
  {
    HasThree(t, i, entry, "," + gap, more);
    HasAppend(t, e, ",", gap);
    HasChar(t, e, ',');
    SkipUnique(t, e, e);
    SkipGap(t, e + 1, gap);
  }

  lemma EntryThenClose(t: string, i: nat, entry: string, gap: string, c: char, e: nat, j: nat)
    requires Has(t, i, entry + gap + [c]) && AllSpace(gap) && !IsSpace(c) && EndsNumber(c)
    requires e == i + |entry| && j == e + |gap|
    ensures Has(t, i, entry)
    ensures j < |t| && t[j] == c && Skip(t, e) == j && EndsNumber(At(t, e))
  {
    HasThree(t, i, entry, gap, [c]);
    HasChar(t, j, c);
    SkipOver(t, e, gap);
    if gap != [] {
      HasAt(t, e, gap, 0);
    }
  }

  lemma KeyThenValue(t: string, i: nat, tabs: string, key: string, gap: string, value: string,
                     k: nat, c: nat, v: nat)
    requires Has(t, i, tabs + key + (":" + gap) + value) && AllSpace(tabs) && AllSpace(gap)
    requires key != [] && !IsSpace(key[0]) && value != [] && !IsSpace(value[0])
    requires k == i + |tabs| && c == k + |key| && v == c + 1 + |gap|
    ensures Has(t, k, key) && Has(t, v, value)
    ensures Skip(t, i) == k
    ensures c < |t| && t[c] == ':' && Skip(t, c) == c && Skip(t, c + 1) == v
  {
    HasFour(t, i, tabs, key, ":" + gap, value);
    HasAt(t, k, key, 0);
    SkipOver(t, i, tabs);
    HasAppend(t, c, ":", gap);
    HasChar(t, c, ':');
    SkipUnique(t, c, c);
    HasAt(t, v, value, 0);
    SkipOver(t, c + 1, gap);
  }

  // The printed lists in that form.

  lemma ItemsText(items: seq<Json>, depth: nat, fmt: bool)
    requires items != [] && PrintableItems(items)
    ensures var first := Print(items[0], depth + 1, fmt);
            PrintItems(items, depth, fmt) ==
            if |items| == 1 then first + "" + "]"
            else first + ("," + If(fmt, " ")) + PrintItems(items[1..], depth, fmt)
  {
    if |items| == 1 {
      assert items[1..] == [];
    }
  }

  lemma ItemsStart(items: seq<Json>, depth: nat, fmt: bool)
    requires items != [] && PrintableItems(items)
    ensures |PrintItems(items, depth, fmt)| > 0
    ensures !IsSpace(PrintItems(items, depth, fmt)[0]) && PrintItems(items, depth, fmt)[0] != ']'
  {
    PrintStarts(items[0], depth + 1, fmt);
  }

  lemma Regroup(a: string, b: string, c: string, d: string)
    ensures a + ("" + b) + (c + d) == a + (b + c) + d
  {
  }

  lemma LastMemberText(members: seq<Member>, depth: nat, fmt: bool) returns (gap: string)
    requires |members| == 1 && PrintableMembers(members)
    ensures AllSpace(gap)
    ensures PrintMembers(members, depth, fmt) == PrintMember(members[0], depth, fmt) + gap + "}"
  {
    assert members[1..] == [];
    gap := If(fmt, "\n") + If(fmt, Tabs(depth));
    Regroup(PrintMember(members[0], depth, fmt), If(fmt, "\n"), If(fmt, Tabs(depth)), "}");
  }

  lemma MoreMembersText(members: seq<Member>, depth: nat, fmt: bool)
    requires |members| > 1 && PrintableMembers(members)
    ensures PrintMembers(members, depth, fmt) ==
            PrintMember(members[0], depth, fmt) + ("," + If(fmt, "\n")) + PrintMembers(members[1..], depth, fmt)
  {
  }

  // One turn of the parser's loops.

  lemma MoreItems(t: string, i: nat, before: seq<Json>, v: Json, e: nat, k: nat, r: Outcome)
    requires i <= |t| && ParseValue(t, i) == Parsed(v, e)
    requires e < |t| && t[e] == ',' && Skip(t, e) == e && Skip(t, e + 1) == k
    requires ParseItems(t, k, before + [v]) == r
    ensures ParseItems(t, i, before) == r
  {
  }

  lemma LastItem(t: string, i: nat, before: seq<Json>, v: Json, e: nat, j: nat, all: seq<Json>)
    requires i <= |t| && ParseValue(t, i) == Parsed(v, e)
    requires Skip(t, e) == j < |t| && t[j] == ']' && all == before + [v]
    ensures ParseItems(t, i, before) == Parsed(Array(all), j + 1)
  {
  }

  lemma OneMemberParses(t: string, i: nat, name: string, c: nat, k: nat, v: Json, e: nat)
    requires i <= |t| && ParseString(t, i) == Text(name, c)
    requires c < |t| && t[c] == ':' && Skip(t, c) == c && Skip(t, c + 1) == k
    requires ParseValue(t, k) == Parsed(v, e)
    ensures ParseMember(t, i) == OneMember(Member(name, v), e)
  {
  }

  lemma MoreMembers(t: string, i: nat, before: seq<Member>, m: Member, e: nat, k: nat, r: Outcome)
    requires i <= |t| && ParseMember(t, i) == OneMember(m, e)
    requires e < |t| && t[e] == ',' && Skip(t, e) == e && Skip(t, e + 1) == k
    requires ParseMembers(t, k, before + [m]) == r
    ensures ParseMembers(t, i, before) == r
  {
  }

  lemma LastMember(t: string, i: nat, before: seq<Member>, m: Member, e: nat, j: nat, all: seq<Member>)
    requires i <= |t| && ParseMember(t, i) == OneMember(m, e)
    requires Skip(t, e) == j < |t| && t[j] == '}' && all == before + [m]
    ensures ParseMembers(t, i, before) == Parsed(Object(all), j + 1)
  {
  }

  // The induction over the value.

  lemma {:induction false} ValueParses(v: Json, depth: nat, fmt: bool, t: string, i: nat)
    requires Printable(v) && Has(t, i, Print(v, depth, fmt))
    requires EndsNumber(At(t, i + |Print(v, depth, fmt)|))
    ensures ParseValue(t, i) == Parsed(v, i + |Print(v, depth, fmt)|)
    decreases v, 0
  {
    PrintStarts(v, depth, fmt);
    HasAt(t, i, Print(v, depth, fmt), 0);
    match v
    case Null => StartsHas(t, i, "null");
    case False => StartsHas(t, i, "false");
    case True => StartsHas(t, i, "true");
    case Number(r) => DecimalParses(t, i, r.Floor);
    case String(s) => QuoteParses(t, i, s);
    case Array(items) => ArrayParses(items, depth, fmt, t, i);
    case Object(members) => ObjectParses(members, depth, fmt, t, i);
  }

  lemma {:induction false} ArrayParses(items: seq<Json>, depth: nat, fmt: bool, t: string, i: nat)
    requires PrintableItems(items) && Has(t, i, "[" + PrintItems(items, depth, fmt))
    ensures i < |t| && t[i] == '['
    ensures ParseArray(t, i) == Parsed(Array(items), i + 1 + |PrintItems(items, depth, fmt)|)
    decreases items, 2
  {
    var text := PrintItems(items, depth, fmt);
    HasAppend(t, i, "[", text);
    HasChar(t, i, '[');
    if items == [] {
      HasChar(t, i + 1, ']');
      SkipUnique(t, i + 1, i + 1);
    } else {
      ItemsStart(items, depth, fmt);
      HasAt(t, i + 1, text, 0);
      ItemsParse(items, depth, fmt, t, i + 1, text, [], items, i + 1 + |text|);
      SkipUnique(t, i + 1, i + 1);
      NonemptyArray(t, i, Parsed(Array(items), i + 1 + |text|));
    }
  }

  lemma NonemptyArray(t: string, i: nat, r: Outcome)
    requires i + 1 < |t| && t[i] == '[' && Skip(t, i + 1) == i + 1 && t[i + 1] != ']' && ParseItems(t, i + 1, []) == r
    ensures ParseArray(t, i) == r
  {
  }

  lemma {:induction false} LastItemParses(items: seq<Json>, depth: nat, fmt: bool, t: string, i: nat,
                                          text: string, before: seq<Json>, all: seq<Json>, end: nat)
    requires |items| == 1 && PrintableItems(items) && text == PrintItems(items, depth, fmt)
    requires Has(t, i, text) && all == before + items && end == i + |text|
    ensures ParseItems(t, i, before) == Parsed(Array(all), end)
    decreases items, 0
  {
    var v, first := items[0], Print(items[0], depth + 1, fmt);
    assert items == [v];
    var e := i + |first|;
    ItemsText(items, depth, fmt);
    assert end == e + 1;
    EntryThenClose(t, i, first, "", ']', e, e);
    ValueParses(v, depth + 1, fmt, t, i);
    LastItem(t, i, before, v, e, e, all);
  }

  lemma {:induction false} ItemsParse(items: seq<Json>, depth: nat, fmt: bool, t: string, i: nat,
                                      text: string, before: seq<Json>, all: seq<Json>, end: nat)
    requires items != [] && PrintableItems(items) && text == PrintItems(items, depth, fmt)
    requires Has(t, i, text) && all == before + items && end == i + |text|
    ensures ParseItems(t, i, before) == Parsed(Array(all), end)
    decreases items, 1
  {
    if |items| == 1 {
      LastItemParses(items, depth, fmt, t, i, text, before, all, end);
    } else {
      var v, rest := items[0], items[1..];
      var first, more := Print(v, depth + 1, fmt), PrintItems(rest, depth, fmt);
      var e := i + |first|;
      var k := e + 1 + |If(fmt, " ")|;
      ItemsText(items, depth, fmt);
      assert end == k + |more|;
      EntryThenMore(t, i, first, If(fmt, " "), more, e, k);
      ItemsStart(rest, depth, fmt);
      HasAt(t, k, more, 0);
      SkipUnique(t, k, k);
      ValueParses(v, depth + 1, fmt, t, i);
      assert before + items == before + [v] + rest;
      ItemsParse(rest, depth, fmt, t, k, more, before + [v], all, end);
      MoreItems(t, i, before, v, e, k, Parsed(Array(all), end));
    }
  }

  lemma {:induction false} ObjectParses(members: seq<Member>, depth: nat, fmt: bool, t: string, i: nat)
    requires PrintableMembers(members) && Has(t, i, Print(Object(members), depth, fmt))
    ensures i < |t| && t[i] == '{'
    ensures ParseObject(t, i) == Parsed(Object(members), i + |Print(Object(members), depth, fmt)|)
    decreases members, 2
  {
    if members == [] {
      var gap := If(fmt, "\n" + Tabs(depth - 1));
      EntryThenClose(t, i, "{", gap, '}', i + 1, i + 1 + |gap|);
      HasChar(t, i, '{');
      EmptyObject(t, i, i + 1 + |gap|);
    } else {
      SomeMembersParse(members, depth, fmt, t, i, PrintMembers(members, depth, fmt),
                       i + |Print(Object(members), depth, fmt)|);
    }
  }

  lemma EmptyObject(t: string, i: nat, j: nat)
    requires i < |t| && t[i] == '{' && Skip(t, i + 1) == j < |t| && t[j] == '}'
    ensures ParseObject(t, i) == Parsed(Object([]), j + 1)
  {
  }

  lemma NonemptyObject(t: string, i: nat, j: nat, r: Outcome)
    requires i < |t| && t[i] == '{' && Skip(t, i + 1) == j && At(t, j) == '\"' && ParseMembers(t, j, []) == r
    ensures ParseObject(t, i) == r
  {
  }

  lemma OpenThenMore(t: string, i: nat, gap: string, more: string, k: nat, end: nat)
    requires Has(t, i, "{" + gap + more) && AllSpace(gap)
    requires k == i + 1 + |gap| && end == i + |"{" + gap + more|
    ensures i < |t| && t[i] == '{' && Has(t, k, more) && k + |more| == end
    ensures Skip(t, i + 1) == Skip(t, k)
  {
    HasThree(t, i, "{", gap, more);
    HasChar(t, i, '{');
    SkipGap(t, i + 1, gap);
  }

  lemma {:induction false} SomeMembersParse(members: seq<Member>, depth: nat, fmt: bool, t: string, i: nat,
                                            text: string, end: nat)
    requires members != [] && PrintableMembers(members) && text == PrintMembers(members, depth, fmt)
    requires Has(t, i, "{" + If(fmt, "\n") + text) && end == i + |"{" + If(fmt, "\n") + text|
    ensures i < |t| && t[i] == '{'
    ensures ParseObject(t, i) == Parsed(Object(members), end)
    decreases members, 1, 1
  {
    var k := i + 1 + |If(fmt, "\n")|;
    OpenThenMore(t, i, If(fmt, "\n"), text, k, end);
    MembersParse(members, depth, fmt, t, k, text, [], members, end);
    NonemptyObject(t, i, Skip(t, k), Parsed(Object(members), end));
  }

  lemma {:induction false} MemberParses(m: Member, depth: nat, fmt: bool, t: string, i: nat, e: nat)
    requires PrintableMember(m) && Has(t, i, PrintMember(m, depth, fmt))
    requires e == i + |PrintMember(m, depth, fmt)| && EndsNumber(At(t, e))
    ensures At(t, Skip(t, i)) == '\"'
    ensures ParseMember(t, Skip(t, i)) == OneMember(m, e)
    decreases m, 1
  {
    var tabs, key, value := If(fmt, Tabs(depth + 1)), Quote(m.name), Print(m.value, depth + 1, fmt);
    var k := i + |tabs|;
    var c := k + |key|;
    var v := c + 1 + |If(fmt, "\t")|;
    PrintStarts(m.value, depth + 1, fmt);
    KeyThenValue(t, i, tabs, key, If(fmt, "\t"), value, k, c, v);
    QuoteParses(t, k, m.name);
    ValueParses(m.value, depth + 1, fmt, t, v);
    OneMemberParses(t, k, m.name, c, v, m.value, e);
  }

  lemma {:induction false} LastMembersParse(members: seq<Member>, depth: nat, fmt: bool, t: string, i: nat,
                                            text: string, before: seq<Member>, all: seq<Member>, end: nat)
    requires |members| == 1 && PrintableMembers(members) && text == PrintMembers(members, depth, fmt)
    requires Has(t, i, text) && all == before + members && end == i + |text|
    ensures At(t, Skip(t, i)) == '\"'
    ensures ParseMembers(t, Skip(t, i), before) == Parsed(Object(all), end)
    decreases members, 0
  {
    var m, first := members[0], PrintMember(members[0], depth, fmt);
    assert members == [m];
    var gap := LastMemberText(members, depth, fmt);
    var e := i + |first|;
    var j := e + |gap|;
    assert end == j + 1;
    EntryThenClose(t, i, first, gap, '}', e, j);
    MemberParses(m, depth, fmt, t, i, e);
    LastMember(t, Skip(t, i), before, m, e, j, all);
  }

  lemma {:induction false} MembersParse(members: seq<Member>, depth: nat, fmt: bool, t: string, i: nat,
                                        text: string, before: seq<Member>, all: seq<Member>, end: nat)
    requires members != [] && PrintableMembers(members) && text == PrintMembers(members, depth, fmt)
    requires Has(t, i, text) && all == before + members && end == i + |text|
    ensures At(t, Skip(t, i)) == '\"'
    ensures ParseMembers(t, Skip(t, i), before) == Parsed(Object(all), end)
    decreases members, 1, 0
  {
    if |members| == 1 {
      LastMembersParse(members, depth, fmt, t, i, text, before, all, end);
    } else {
      var m, rest := members[0], members[1..];
      var first, more := PrintMember(m, depth, fmt), PrintMembers(rest, depth, fmt);
      var e := i + |first|;
      var k := e + 1 + |If(fmt, "\n")|;
      MoreMembersText(members, depth, fmt);
      assert end == k + |more|;
      EntryThenMore(t, i, first, If(fmt, "\n"), more, e, k);
      MemberParses(m, depth, fmt, t, i, e);
      FirstMoved(before, m, rest, members);
      MembersParse(rest, depth, fmt, t, k, more, before + [m], all, end);
      MoreMembers(t, Skip(t, i), before, m, e, Skip(t, k), Parsed(Object(all), end));
    }
  }

  lemma FirstMoved(before: seq<Member>, m: Member, rest: seq<Member>, members: seq<Member>)
    requires members != [] && m == members[0] && rest == members[1..]
    ensures before + members == before + [m] + rest
  {
  }

  /** Parsing either printed form of a value gives the value back and consumes
      exactly the printed text, whatever the depth it was printed at. */
  lemma RoundTrip(v: Json, depth: nat, fmt: bool, whole: bool)
    requires Printable(v)
    ensures ParseDocument(Print(v, depth, fmt), whole) == Parsed(v, |Print(v, depth, fmt)|)
  {
    var t := Print(v, depth, fmt);
    assert t[0..0 + |t|] == t;
    PrintStarts(v, depth, fmt);
    SkipUnique(t, 0, 0);
    ValueParses(v, depth, fmt, t, 0);
    SkipUnique(t, |t|, |t|);
  }

  /** Hence no two values print the same. */
  lemma PrintIsInjective(v: Json, w: Json, depth: nat, fmt: bool)
    requires Printable(v) && Printable(w) && Print(v, depth, fmt) == Print(w, depth, fmt)
    ensures v == w
  {
    RoundTrip(v, depth, fmt, true);
    RoundTrip(w, depth, fmt, true);
  }
}
