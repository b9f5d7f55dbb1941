/**
 The printer of `src/cJSON/cJSON.c`: every function computes the size of its
 buffer before it writes, and what it writes is the text of `JsonPrint`.
 */
module JsonPrinter {
  import opened CStrings
  import opened JsonText
  import opened JsonPrint
  import opened JsonNodes
  import opened JsonLists

  // ----- no terminator inside -----

  lemma {:induction false} EscapeIsCString(s: string)
    requires CString(s)
    ensures CString(Escape(s))
  {
    if s != [] {
      EscapeIsCString(s[1..]);
      assert s[0] != '\0';
    }
  }

  lemma {:induction false} DigitsAreCString(n: nat)
    ensures CString(Digits(n))
  {
    if n >= 10 {
      DigitsAreCString(n / 10);
    }
  }

  lemma {:induction false} PrintIsCString(v: Json, depth: nat, fmt: bool)
    requires Printable(v)
    ensures CString(Print(v, depth, fmt))
    decreases v, 0
  {
    match v
    case Number(r) => DigitsAreCString(if r.Floor < 0 then -r.Floor else r.Floor);
    case String(s) => EscapeIsCString(s);
    case Array(items) => ItemsAreCString(items, depth, fmt);
    case Object(members) => MembersAreCString(members, depth, fmt);
    case _ =>
  }

  lemma {:induction false} ItemsAreCString(items: seq<Json>, depth: nat, fmt: bool)
    requires PrintableItems(items)
    ensures CString(PrintItems(items, depth, fmt))
    decreases items, 1
  {
    if items != [] {
      PrintIsCString(items[0], depth + 1, fmt);
      ItemsAreCString(items[1..], depth, fmt);
    }
  }

  lemma {:induction false} MembersAreCString(members: seq<Member>, depth: nat, fmt: bool)
    requires PrintableMembers(members)
    ensures CString(PrintMembers(members, depth, fmt))
    decreases members, 1
  {
    if members != [] {
      MemberIsCString(members[0], depth, fmt);
      MembersAreCString(members[1..], depth, fmt);
      var gap := (if |members| > 1 then "," else "") + If(fmt, "\n");
      assert CString(PrintMember(members[0], depth, fmt) + gap);
    }
  }

  lemma {:induction false} MemberIsCString(m: Member, depth: nat, fmt: bool)
    requires PrintableMember(m)
    ensures CString(PrintMember(m, depth, fmt))
    decreases m, 1
  {
    EscapeIsCString(m.name);
    PrintIsCString(m.value, depth + 1, fmt);
    var key := If(fmt, Tabs(depth + 1)) + Quote(m.name);
    assert CString(key);
    assert CString(key + (":" + If(fmt, "\t")));
  }

  // ----- strings -----

  /** The size of the escaped text, counted before anything is written. */
  method CountEscaped(str: string) returns (len: nat)
    requires CString(str)
    ensures len == |Escape(str)|
  {
    var ptr := 0;
    len := 0;
    while At(str, ptr) != '\0'
      invariant 0 <= ptr <= |str| && len + |Escape(str[ptr..])| == |Escape(str)|
      decreases |str| - ptr
    {
      var token := At(str, ptr);
      assert str[ptr..][1..] == str[ptr + 1..];
      len := len + 1;
      if token in "\"\\\U{08}\U{0C}\n\r\t" {
        len := len + 1;
      } else if token < ' ' {
        len := len + 5;
      }
      ptr := ptr + 1;
    }
  }

  /** A backslash and the letter, or the code, for one character. */
  method PutEscape(out: array<char>, ptr2: nat, token: char, ghost done: string) returns (next: nat)
    requires Written(out, done) && ptr2 == |done| && ptr2 + |EscapeChar(token)| < out.Length
    requires token <= 31 as char || token == '\"' || token == '\\'
    modifies out
    ensures Written(out, done + EscapeChar(token)) && next == ptr2 + |EscapeChar(token)|
  {
    Put(out, ptr2, '\\', done);
    ghost var begun := done + "\\";
    next := ptr2 + 1;
    match token {
      case '\\' => Put(out, next, '\\', begun);
      case '\"' => Put(out, next, '\"', begun);
      case '\U{08}' => Put(out, next, 'b', begun);
      case '\U{0C}' => Put(out, next, 'f', begun);
      case '\n' => Put(out, next, 'n', begun);
      case '\r' => Put(out, next, 'r', begun);
      case '\t' => Put(out, next, 't', begun);
      case _ =>
        var code := "u00" + [HexChar(token as int / 16), HexChar(token as int % 16)];
        PutText(out, next, code, begun);
        assert begun + code == done + EscapeChar(token);
        next := next + 5;
        return;
    }
    next := next + 1;
  }

  /** `print_string_ptr`: the quoted text fills the buffer exactly. */
  method PrintStringPtr(str: CharPtr) returns (out: array<char>)
    requires str.Some? ==> CString(str.text)
    ensures fresh(out)
    ensures str.Nothing? ==> Holds(out, "")
    ensures str.Some? ==> Holds(out, Quote(str.text)) && out.Length == |Quote(str.text)| + 1
  {
    if str.Nothing? {
      out := Strdup("");
      return;
    }
    var s := str.text;
    var len := CountEscaped(s);
    out := new char[len + 3];
    var ptr2, ptr := 0, 0;
    Put(out, ptr2, '\"', "");
    ghost var done := "" + "\"";
    ptr2 := ptr2 + 1;
    while At(s, ptr) != '\0'
      invariant 0 <= ptr <= |s| && fresh(out)
      invariant Written(out, done) && ptr2 == |done| && done + Escape(s[ptr..]) == "\"" + Escape(s)
      decreases |s| - ptr
    {
      var c := At(s, ptr);
      assert s[ptr..][1..] == s[ptr + 1..] && s[ptr..][0] == c;
      Split(done, EscapeChar(c), Escape(s[ptr + 1..]));
      if c > 31 as char && c != '\"' && c != '\\' {
        Put(out, ptr2, c, done);
        ptr2 := ptr2 + 1;
      } else {
        ptr2 := PutEscape(out, ptr2, c, done);
      }
      done := done + EscapeChar(c);
      ptr := ptr + 1;
    }
    assert s[ptr..] == "";
    Put(out, ptr2, '\"', done);
    out[ptr2 + 1] := '\0';
  }

  lemma Split(done: string, next: string, rest: string)
    ensures done + (next + rest) == done + next + rest
  {
  }

  // ----- numbers -----

  lemma {:induction false} DigitsLength(n: nat, bound: nat, k: nat)
    requires n < bound && bound == TenTo(k) && k > 0
    ensures |Digits(n)| <= k
    decreases k
  {
    if n >= 10 {
      DigitsLength(n / 10, TenTo(k - 1), k - 1);
    }
  }

  function TenTo(k: nat): nat {
    if k == 0 then 1 else 10 * TenTo(k - 1)
  }

  /** `print_number` where the number is an int: 21 characters are enough. */
  method PrintNumber(item: Node, ghost r: real) returns (out: array<char>)
    requires IntValued(r) && item.valuedouble == r && item.valueint == Truncate(r)
    ensures fresh(out) && Holds(out, Decimal(r.Floor))
  {
    out := new char[21];
    var n := item.valueint;
    assert n == r.Floor;
    assert TenTo(10) == 10_000_000_000;
    DigitsLength(if n < 0 then -n else n, TenTo(10), 10);
    PutText(out, 0, Decimal(n), "");
    assert "" + Decimal(n) == Decimal(n);
  }

  // ----- arrays -----

  /** The room `print_array` adds up for its elements. */
  function ItemsRoom(items: seq<Json>, depth: nat, fmt: bool): nat
    requires PrintableItems(items)
  {
    if items == [] then 0
    else |Print(items[0], depth + 1, fmt)| + 2 + (if fmt then 1 else 0) + ItemsRoom(items[1..], depth, fmt)
  }

  /** Separators and bracket included, the elements fit the room, with one byte for each
      of them, and one or two more, to spare. */
  lemma {:induction false} ItemsFit(items: seq<Json>, depth: nat, fmt: bool)
    requires PrintableItems(items)
    ensures ItemsRoom(items, depth, fmt) + 1 ==
            |PrintItems(items, depth, fmt)| + (if items == [] then 0 else |items| + (if fmt then 2 else 1))
  {
    if items != [] {
      ItemsFit(items[1..], depth, fmt);
    }
  }

  lemma {:induction false} PrintableEach(items: seq<Json>)
    requires PrintableItems(items)
    ensures forall k :: 0 <= k < |items| ==> Printable(items[k])
  {
    if items != [] {
      PrintableEach(items[1..]);
      assert forall k :: 0 < k < |items| ==> items[k] == items[1..][k - 1];
    }
  }

  /** The entries made so far are the first elements, printed. */
  ghost predicate ItemEntries(entries: seq<array<char>>, items: seq<Json>, depth: nat, fmt: bool)
    requires PrintableItems(items)
    reads entries
  {
    PrintableEach(items);
    |entries| <= |items| && forall k :: 0 <= k < |entries| ==> Holds(entries[k], Print(items[k], depth + 1, fmt))
  }

  lemma OneMoreEntry(entries: seq<array<char>>, items: seq<Json>, depth: nat, fmt: bool, entry: array<char>)
    requires PrintableItems(items) && ItemEntries(entries, items, depth, fmt) && |entries| < |items|
    requires Printable(items[|entries|]) && Holds(entry, Print(items[|entries|], depth + 1, fmt))
    ensures ItemEntries(entries + [entry], items, depth, fmt)
  {
  }

  /** Writes the elements behind the opening bracket. */
  method ComposeArray(entries: seq<array<char>>, len: nat, fmt: bool, ghost items: seq<Json>, ghost depth: nat)
    returns (out: array<char>)
    requires PrintableItems(items) && items != [] && |entries| == |items| && ItemEntries(entries, items, depth, fmt)
    requires len == 5 + ItemsRoom(items, depth, fmt)
    ensures fresh(out) && Holds(out, "[" + PrintItems(items, depth, fmt)) && out.Length == len
  {
    ghost var text := "[" + PrintItems(items, depth, fmt);
    ItemsFit(items, depth, fmt);
    out := new char[len];
    var ptr;
    ghost var done;
    ptr, done := PutChar(out, 0, true, '[', "", PrintItems(items, depth, fmt), text);
    out[ptr] := '\0';
    var i := 0;
    while i < |entries|
      invariant 0 <= i <= |entries| == |items| && PrintableItems(items[i..]) && fresh(out)
      invariant ItemEntries(entries, items, depth, fmt)
      invariant Pending(out, ptr, done, PrintItems(items[i..], depth, fmt), text)
    {
      ItemStep(items, i, depth, fmt);
      ptr, done := PutItem(out, ptr, entries[i], i != |entries| - 1, fmt, Print(items[i], depth + 1, fmt), done,
                           PrintItems(items[i + 1..], depth, fmt), text);
      i := i + 1;
    }
    ptr, done := PutChar(out, ptr, true, ']', done, "", text);
    out[ptr] := '\0';
    assert done + "" == done;
  }

  /** One element and the separator behind it. */
  method PutItem(out: array<char>, start: nat, entry: array<char>, more: bool, fmt: bool,
                 ghost s: string, ghost before: string, ghost rest: string, ghost text: string)
    returns (ptr: nat, ghost done: string)
    requires entry != out && Holds(entry, s) && CString(s) && |rest| > 0
    requires Pending(out, start, before, s + (If(more, ",") + (If(more && fmt, " ") + rest)), text)
    modifies out
    ensures Pending(out, ptr, done, rest, text)
  {
    ptr, done := PutEntry(out, start, entry, s, before, If(more, ",") + (If(more && fmt, " ") + rest), text);
    ptr, done := PutChar(out, ptr, more, ',', done, If(more && fmt, " ") + rest, text);
    ptr, done := PutChar(out, ptr, more && fmt, ' ', done, rest, text);
    if more {
      out[ptr] := '\0';
    }
  }

  lemma ItemPieces(s: string, more: bool, fmt: bool, rest: string)
    ensures s + (if more then "," + If(fmt, " ") else "") + rest == s + (If(more, ",") + (If(more && fmt, " ") + rest))
  {
  }

  // ----- objects -----

  /** The room `print_object` adds up for its members. */
  function MembersRoom(members: seq<Member>, depth: nat, fmt: bool): nat
    requires PrintableMembers(members)
  {
    if members == [] then 0 else MemberRoom(members[0], depth, fmt) + MembersRoom(members[1..], depth, fmt)
  }

  function MemberRoom(m: Member, depth: nat, fmt: bool): nat
    requires PrintableMember(m)
  {
    |Print(m.value, depth + 1, fmt)| + |Quote(m.name)| + 2 + (if fmt then 2 + (depth + 1) else 0)
  }

  /** Indentation, separators, line breaks and brace included, the members fit, with one
      byte to spare. */
  lemma {:induction false} MembersFit(members: seq<Member>, depth: nat, fmt: bool)
    requires PrintableMembers(members)
    ensures MembersRoom(members, depth, fmt) + 1 + (if fmt then depth else 0) ==
            |PrintMembers(members, depth, fmt)| + (if members == [] then 0 else 1)
  {
    if members != [] {
      MembersFit(members[1..], depth, fmt);
      MemberLength(members[0], depth, fmt);
    }
  }

  lemma MemberLength(m: Member, depth: nat, fmt: bool)
    requires PrintableMember(m)
    ensures |PrintMember(m, depth, fmt)| + 1 + (if fmt then 1 else 0) == MemberRoom(m, depth, fmt)
  {
  }

  lemma {:induction false} PrintableEachMember(members: seq<Member>)
    requires PrintableMembers(members)
    ensures forall k :: 0 <= k < |members| ==> PrintableMember(members[k])
  {
    if members != [] {
      PrintableEachMember(members[1..]);
      assert forall k :: 0 < k < |members| ==> members[k] == members[1..][k - 1];
    }
  }

  /** The names and entries made so far are those of the first members. */
  ghost predicate MemberEntries(names: seq<array<char>>, entries: seq<array<char>>, members: seq<Member>,
                   depth: nat, fmt: bool)
    requires PrintableMembers(members)
    reads names, entries
  {
    PrintableEachMember(members);
    && |names| == |entries| <= |members|
    && forall k :: 0 <= k < |entries| ==>
         MemberEntry(names[k], entries[k], members[k], depth, fmt)
  }

  ghost predicate MemberEntry(name: array<char>, entry: array<char>, m: Member, depth: nat, fmt: bool)
    requires PrintableMember(m)
    reads name, entry
  {
    Holds(name, Quote(m.name)) && Holds(entry, Print(m.value, depth + 1, fmt))
  }

  lemma OneMoreMember(names: seq<array<char>>, entries: seq<array<char>>, members: seq<Member>, depth: nat, fmt: bool,
                      name: array<char>, entry: array<char>)
    requires PrintableMembers(members) && MemberEntries(names, entries, members, depth, fmt) && |entries| < |members|
    requires PrintableMember(members[|entries|]) && MemberEntry(name, entry, members[|entries|], depth, fmt)
    ensures MemberEntries(names + [name], entries + [entry], members, depth, fmt)
  {
    PrintableEachMember(members);
    var n, all := names + [name], entries + [entry];
    forall k | 0 <= k < |all| ensures MemberEntry(n[k], all[k], members[k], depth, fmt) {
      if k < |entries| {
        assert n[k] == names[k] && all[k] == entries[k];
      }
    }
  }

  method PutTabs(out: array<char>, start: nat, now: bool, n: int, ghost before: string, ghost rest: string,
                   ghost text: string)
    returns (ptr: nat, ghost done: string)
    requires Pending(out, start, before, If(now, Tabs(n)) + rest, text)
    modifies out
    ensures Pending(out, ptr, done, rest, text)
  {
    ptr, done := start, before;
    if now {
      var j := 0;
      while j < n
        invariant 0 <= j && (0 <= n ==> j <= n) && Pending(out, ptr, done, Tabs(n - j) + rest, text)
      {
        assert Tabs(n - j) + rest == "\t" + (Tabs(n - j - 1) + rest);
        ptr, done := PutChar(out, ptr, true, '\t', done, Tabs(n - j - 1) + rest, text);
        j := j + 1;
      }
    }
  }

  /** One member: indentation, name, colon, value, comma and line break. */
  method PutMember(out: array<char>, start: nat, name: array<char>, entry: array<char>, more: bool, fmt: bool,
                   depth: nat,
                   ghost key: string, ghost value: string, ghost before: string, ghost rest: string, ghost text: string)
    returns (ptr: nat, ghost done: string)
    requires Holds(name, key) && CString(key) && Holds(entry, value) && CString(value)
    requires out != name && out != entry && |rest| > 0
    requires Pending(out, start, before, MemberAndRest(key, value, depth, fmt, more, rest), text)
    modifies out
    ensures Pending(out, ptr, done, rest, text)
  {
    ghost var end := If(more, ",") + (If(fmt, "\n") + rest);
    ptr, done := PutTabs(out, start, fmt, depth + 1, before, key + (":" + (If(fmt, "\t") + (value + end))), text);
    ptr, done := PutEntry(out, ptr, name, key, done, ":" + (If(fmt, "\t") + (value + end)), text);
    ptr, done := PutChar(out, ptr, true, ':', done, If(fmt, "\t") + (value + end), text);
    ptr, done := PutChar(out, ptr, fmt, '\t', done, value + end, text);
    ptr, done := PutEntry(out, ptr, entry, value, done, end, text);
    ptr, done := PutChar(out, ptr, more, ',', done, If(fmt, "\n") + rest, text);
    ptr, done := PutChar(out, ptr, fmt, '\n', done, rest, text);
    out[ptr] := '\0';
  }

  function MemberAndRest(key: string, value: string, depth: nat, fmt: bool, more: bool, rest: string): string {
    If(fmt, Tabs(depth + 1)) + (key + (":" + (If(fmt, "\t") + (value + (If(more, ",") + (If(fmt, "\n") + rest))))))
  }

  lemma MemberPieces(m: Member, depth: nat, fmt: bool, more: bool, rest: string)
    requires PrintableMember(m)
    ensures PrintMember(m, depth, fmt) + ((if more then "," else "") + If(fmt, "\n")) + rest ==
            MemberAndRest(Quote(m.name), Print(m.value, depth + 1, fmt), depth, fmt, more, rest)
  {
    SevenPieces(If(fmt, Tabs(depth + 1)), Quote(m.name), ":", If(fmt, "\t"), Print(m.value, depth + 1, fmt),
                If(more, ",") + If(fmt, "\n"), rest);
    Split(If(more, ","), If(fmt, "\n"), rest);
  }

  lemma SevenPieces(a: string, b: string, c: string, d: string, e: string, f: string, g: string)
    ensures (a + b + (c + d) + e) + f + g == a + (b + (c + (d + (e + (f + g)))))
  {
    assert a + b + (c + d) + e == a + (b + (c + (d + e)));
  }

  /** What is still to be written, one member taken off. */
  lemma MemberStep(members: seq<Member>, i: nat, depth: nat, fmt: bool)
    requires i < |members| && PrintableMembers(members[i..])
    ensures PrintableMember(members[i]) && PrintableMembers(members[i + 1..])
    ensures CString(Quote(members[i].name)) && CString(Print(members[i].value, depth + 1, fmt))
    ensures PrintMembers(members[i + 1..], depth, fmt) != ""
    ensures PrintMembers(members[i..], depth, fmt) ==
            MemberAndRest(Quote(members[i].name), Print(members[i].value, depth + 1, fmt), depth, fmt,
                          i != |members| - 1, PrintMembers(members[i + 1..], depth, fmt))
  {
    var m, more := members[i], PrintMembers(members[i + 1..], depth, fmt);
    assert members[i..][0] == m && members[i..][1..] == members[i + 1..];
    EscapeIsCString(m.name);
    PrintIsCString(m.value, depth + 1, fmt);
    MemberPieces(m, depth, fmt, i != |members| - 1, more);
  }

  /** What is still to be written, one element taken off. */
  lemma ItemStep(items: seq<Json>, i: nat, depth: nat, fmt: bool)
    requires i < |items| && PrintableItems(items[i..])
    ensures Printable(items[i]) && PrintableItems(items[i + 1..])
    ensures CString(Print(items[i], depth + 1, fmt)) && PrintItems(items[i + 1..], depth, fmt) != ""
    ensures PrintItems(items[i..], depth, fmt) ==
            Print(items[i], depth + 1, fmt)
            + (If(i != |items| - 1, ",") + (If(i != |items| - 1 && fmt, " ") + PrintItems(items[i + 1..], depth, fmt)))
  {
    assert items[i..][0] == items[i] && items[i..][1..] == items[i + 1..];
    PrintIsCString(items[i], depth + 1, fmt);
    ItemPieces(Print(items[i], depth + 1, fmt), i != |items| - 1, fmt, PrintItems(items[i + 1..], depth, fmt));
  }

  /** Writes the members. */
  method PutMembers(out: array<char>, start: nat, names: seq<array<char>>, entries: seq<array<char>>, fmt: bool,
                    depth: nat,
                    ghost members: seq<Member>, ghost before: string, ghost text: string)
    returns (ptr: nat, ghost done: string)
    requires PrintableMembers(members) && |entries| == |members| && out !in names && out !in entries
    requires MemberEntries(names, entries, members, depth, fmt)
    requires Pending(out, start, before, PrintMembers(members, depth, fmt), text)
    modifies out
    ensures Pending(out, ptr, done, If(fmt, Tabs(depth)) + "}", text)
  {
    ptr, done := start, before;
    var i := 0;
    while i < |entries|
      invariant 0 <= i <= |entries| == |members| && PrintableMembers(members[i..])
      invariant MemberEntries(names, entries, members, depth, fmt)
      invariant Pending(out, ptr, done, PrintMembers(members[i..], depth, fmt), text)
    {
      MemberStep(members, i, depth, fmt);
      PrintableEachMember(members);
      ghost var m, more := members[i], PrintMembers(members[i + 1..], depth, fmt);
      ptr, done := PutMember(out, ptr, names[i], entries[i], i != |entries| - 1, fmt, depth, Quote(m.name),
                             Print(m.value, depth + 1, fmt), done, more, text);
      i := i + 1;
    }
  }

  /** The braces and the members between them. */
  method ComposeObject(names: seq<array<char>>, entries: seq<array<char>>, len: nat, fmt: bool, depth: nat,
                       ghost members: seq<Member>)
    returns (out: array<char>)
    requires PrintableMembers(members) && |entries| == |members| && MemberEntries(names, entries, members, depth, fmt)
    requires len == 7 + (if fmt then depth + 1 else 0) + MembersRoom(members, depth, fmt)
    ensures fresh(out) && out.Length == len
    ensures Holds(out, "{" + If(fmt, "\n") + PrintMembers(members, depth, fmt))
  {
    ghost var all := PrintMembers(members, depth, fmt);
    ghost var text := "{" + If(fmt, "\n") + all;
    Split("{", If(fmt, "\n"), all);
    MembersFit(members, depth, fmt);
    out := new char[len];
    var ptr;
    ghost var done;
    ptr, done := PutChar(out, 0, true, '{', "", If(fmt, "\n") + all, text);
    ptr, done := PutChar(out, ptr, fmt, '\n', done, all, text);
    out[ptr] := '\0';
    ptr, done := PutMembers(out, ptr, names, entries, fmt, depth, members, done, text);
    CloseObject(out, ptr, fmt, depth, done, text);
  }

  method CloseObject(out: array<char>, start: nat, fmt: bool, indent: int, ghost before: string, ghost text: string)
    requires Pending(out, start, before, If(fmt, Tabs(indent)) + "}", text)
    modifies out
    ensures Holds(out, text)
  {
    var ptr;
    ghost var done;
    ptr, done := PutTabs(out, start, fmt, indent, before, "}", text);
    ptr, done := PutChar(out, ptr, true, '}', done, "", text);
    assert done + "" == done;
    out[ptr] := '\0';
  }

  /** An object without members: its brace, and its line break by its own rule. */
  method EmptyObject(fmt: bool, depth: nat) returns (out: array<char>)
    ensures fresh(out) && Holds(out, "{" + If(fmt, "\n" + Tabs(depth - 1)) + "}")
  {
    ghost var text := "{" + If(fmt, "\n" + Tabs(depth - 1)) + "}";
    ghost var tail := If(fmt, Tabs(depth - 1)) + "}";
    assert text == "" + (['{'] + (If(fmt, "\n") + tail));
    out := new char[if fmt then depth + 4 else 3];
    var ptr;
    ghost var done;
    ptr, done := PutChar(out, 0, true, '{', "", If(fmt, "\n") + tail, text);
    ptr, done := PutChar(out, ptr, fmt, '\n', done, tail, text);
    CloseObject(out, ptr, fmt, depth - 1, done, text);
  }

  // ----- walking the tree -----

  /** The tree is linked as its shape says and holds a value that can be printed. */
  ghost predicate Shows(sh: Shape, v: Json)
    reads Nodes(sh)
  {
    Tree(sh) && Denotes(sh, v) && Printable(v)
  }

  lemma {:induction false} DenotedAt(kids: seq<Shape>, items: seq<Json>, k: nat)
    requires DenoteItems(kids, items) && k < |kids|
    ensures Denotes(kids[k], items[k])
    decreases k
  {
    if k > 0 {
      DenotedAt(kids[1..], items[1..], k - 1);
    }
  }

  lemma ShownItem(sh: Shape, items: seq<Json>, k: nat)
    requires Shows(sh, Array(items)) && k < |sh.kids|
    ensures |items| == |sh.kids| && Shows(sh.kids[k], items[k])
    ensures sh.kids[k].node.next == if k + 1 < |sh.kids| then sh.kids[k + 1].node else null
    ensures Nodes(sh.kids[k]) <= Nodes(sh)
  {
    TreesAt(sh.kids, k);
    DenotedAt(sh.kids, items, k);
    PrintableEach(items);
    NextOf(sh.node.child, Roots(sh.kids), k);
    NodesAt(sh.kids, k);
  }

  lemma {:induction false} NodesAt(kids: seq<Shape>, k: nat)
    requires k < |kids|
    ensures Nodes(kids[k]) <= NodesOf(kids)
  {
    if k > 0 {
      assert kids[k] == kids[1..][k - 1];
      NodesAt(kids[1..], k - 1);
    }
  }

  /** Prints the children and adds up the room. */
  method CollectItems(item: Node, depth: nat, fmt: bool, ghost sh: Shape, ghost items: seq<Json>)
    returns (entries: seq<array<char>>, len: nat)
    requires sh.node == item && Shows(sh, Array(items))
    ensures |entries| == |items| && ItemEntries(entries, items, depth, fmt)
    ensures len == 5 + ItemsRoom(items, depth, fmt)
    decreases sh, 0
  {
    NodesAllocated([sh]);
    assert DenoteItems(sh.kids, items);
    entries, len := [], 5;
    var child := item.child;
    ghost var i := 0;
    while child != null
      invariant 0 <= i <= |items| == |sh.kids| && child == if i < |items| then sh.kids[i].node else null
      invariant Shows(sh, Array(items)) && |entries| == i && ItemEntries(entries, items, depth, fmt)
      invariant PrintableItems(items[i..])
      invariant len + ItemsRoom(items[i..], depth, fmt) == 5 + ItemsRoom(items, depth, fmt)
      decreases |items| - i
    {
      ShownItem(sh, items, i);
      assert items[i..][0] == items[i] && items[i..][1..] == items[i + 1..];
      var ret := PrintValue(child, depth + 1, fmt, sh.kids[i], items[i]);
      PrintIsCString(items[i], depth + 1, fmt);
      var n := Strlen(ret, Print(items[i], depth + 1, fmt));
      OneMoreEntry(entries, items, depth, fmt, ret);
      entries := entries + [ret];
      len := len + n + 2 + (if fmt then 1 else 0);
      child := child.next;
      i := i + 1;
    }
  }

  /** `print_array` */
  method PrintArray(item: Node, depth: nat, fmt: bool, ghost sh: Shape, ghost items: seq<Json>)
    returns (out: array<char>)
    requires sh.node == item && Shows(sh, Array(items))
    ensures fresh(out) && Holds(out, Print(Array(items), depth, fmt))
    decreases sh, 1
  {
    NodesAllocated([sh]);
    var numentries := GetArraySize(item, Roots(sh.kids));
    assert DenoteItems(sh.kids, items);
    if numentries == 0 {
      assert "[" + "]" == "[]";
      out := Strdup("[]");
      return;
    }
    var entries, len := CollectItems(item, depth, fmt, sh, items);
    out := ComposeArray(entries, len, fmt, items, depth);
  }

  lemma {:induction false} MemberDenotedAt(kids: seq<Shape>, members: seq<Member>, k: nat)
    requires DenoteMembers(kids, members) && k < |kids|
    ensures kids[k].node.name == Some(members[k].name) && Denotes(kids[k], members[k].value)
    decreases k
  {
    if k > 0 {
      MemberDenotedAt(kids[1..], members[1..], k - 1);
    }
  }

  lemma ShownMember(sh: Shape, members: seq<Member>, k: nat)
    requires Shows(sh, Object(members)) && k < |sh.kids|
    ensures |members| == |sh.kids| && CString(members[k].name) && Shows(sh.kids[k], members[k].value)
    ensures sh.kids[k].node.name == Some(members[k].name)
    ensures sh.kids[k].node.next == if k + 1 < |sh.kids| then sh.kids[k + 1].node else null
    ensures Nodes(sh.kids[k]) <= Nodes(sh)
  {
    TreesAt(sh.kids, k);
    MemberDenotedAt(sh.kids, members, k);
    PrintableEachMember(members);
    assert PrintableMember(members[k]);
    NextOf(sh.node.child, Roots(sh.kids), k);
    NodesAt(sh.kids, k);
  }

  lemma NextMemberRoom(members: seq<Member>, i: nat, depth: nat, fmt: bool)
    requires i < |members| && PrintableMembers(members[i..])
    ensures PrintableMember(members[i]) && PrintableMembers(members[i + 1..])
    ensures MembersRoom(members[i..], depth, fmt) ==
            MemberRoom(members[i], depth, fmt) + MembersRoom(members[i + 1..], depth, fmt)
  {
    assert members[i..][0] == members[i] && members[i..][1..] == members[i + 1..];
  }

  /** Prints the names and values of the children and adds up the room. */
  method CollectMembers(item: Node, depth: nat, fmt: bool, ghost sh: Shape, ghost members: seq<Member>)
    returns (names: seq<array<char>>, entries: seq<array<char>>, len: nat)
    requires sh.node == item && Shows(sh, Object(members))
    ensures |entries| == |members| && MemberEntries(names, entries, members, depth, fmt)
    ensures len == 7 + (if fmt then depth + 1 else 0) + MembersRoom(members, depth, fmt)
    decreases sh, 0
  {
    NodesAllocated([sh]);
    assert DenoteMembers(sh.kids, members);
    names, entries := [], [];
    len := 7 + (if fmt then depth + 1 else 0);
    ghost var all := len + MembersRoom(members, depth, fmt);
    var child := item.child;
    ghost var i := 0;
    while child != null
      invariant 0 <= i <= |members| == |sh.kids| && child == if i < |members| then sh.kids[i].node else null
      invariant Shows(sh, Object(members)) && |entries| == i && MemberEntries(names, entries, members, depth, fmt)
      invariant PrintableMembers(members[i..]) && len + MembersRoom(members[i..], depth, fmt) == all
      decreases |members| - i
    {
      ShownMember(sh, members, i);
      NextMemberRoom(members, i, depth, fmt);
      var str, ret, room := PrintMemberParts(child, depth, fmt, sh.kids[i], members[i]);
      OneMoreMember(names, entries, members, depth, fmt, str, ret);
      names, entries := names + [str], entries + [ret];
      len := len + room;
      child := child.next;
      i := i + 1;
    }
  }

  /** The name and the value of one member, and the room they take. */
  method PrintMemberParts(child: Node, depth: nat, fmt: bool, ghost sh: Shape, ghost m: Member)
    returns (str: array<char>, ret: array<char>, room: nat)
    requires sh.node == child && PrintableMember(m) && child.name == Some(m.name) && Shows(sh, m.value)
    ensures MemberEntry(str, ret, m, depth, fmt) && room == MemberRoom(m, depth, fmt)
    decreases sh, 3
  {
    NodesAllocated([sh]);
    EscapeIsCString(m.name);
    PrintIsCString(m.value, depth + 1, fmt);
    str := PrintStringPtr(child.name);
    ret := PrintValue(child, depth + 1, fmt, sh, m.value);
    var n := Strlen(ret, Print(m.value, depth + 1, fmt));
    var k := Strlen(str, Quote(m.name));
    room := n + k + 2 + (if fmt then 2 + (depth + 1) else 0);
  }

  /** `print_object` */
  method PrintObject(item: Node, depth: nat, fmt: bool, ghost sh: Shape, ghost members: seq<Member>)
    returns (out: array<char>)
    requires sh.node == item && Shows(sh, Object(members))
    ensures fresh(out) && Holds(out, Print(Object(members), depth, fmt))
    decreases sh, 1
  {
    NodesAllocated([sh]);
    var numentries := GetArraySize(item, Roots(sh.kids));
    assert DenoteMembers(sh.kids, members);
    if numentries == 0 {
      out := EmptyObject(fmt, depth);
      return;
    }
    var names, entries, len := CollectMembers(item, depth, fmt, sh, members);
    out := ComposeObject(names, entries, len, fmt, depth, members);
  }

  /** `print_value` */
  method PrintValue(item: Node, depth: nat, fmt: bool, ghost sh: Shape, ghost v: Json) returns (out: array<char>)
    requires sh.node == item && Shows(sh, v)
    ensures fresh(out) && Holds(out, Print(v, depth, fmt))
    decreases sh, 2
  {
    match item.kind {
      case KindNull => out := Strdup("null");
      case KindFalse => out := Strdup("false");
      case KindTrue => out := Strdup("true");
      case KindNumber => out := PrintNumber(item, v.value);
      case KindString => out := PrintStringPtr(item.valuestring);
      case KindArray => out := PrintArray(item, depth, fmt, sh, v.items);
      case KindObject => out := PrintObject(item, depth, fmt, sh, v.members);
    }
  }
}
