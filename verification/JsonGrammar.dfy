/**
 The parser of `src/cJSON/cJSON.c` accepts exactly the texts of `JsonSyntax`, and
 gives them the values they mean; the texts of RFC 8259 are among them.
 */
module JsonGrammar {
  import opened JsonText
  import opened JsonParse
  import opened JsonSyntax
  import opened JsonReadNumbers
  import opened JsonReadStrings
  import Tokens = JsonMinifyTokens
  import Steps = JsonMinifyParse

  // ----- white space -----

  lemma SpaceIsSkipped(t: string, i: nat, s: string)
    requires Has(t, i, s) && Space(s) && !IsSpace(At(t, i + |s|))
    ensures Skip(t, i) == i + |s|
  {
    SkipOver(t, i, s);
  }

  lemma {:induction false} SkippedIsSpace(t: string, i: nat)
    requires i <= |t|
    ensures forall k :: i <= k < Skip(t, i) ==> IsSpace(t[k])
    decreases |t| - i
  {
    if IsSpace(At(t, i)) {
      SkippedIsSpace(t, i + 1);
    }
  }

  /** The white space skipped, as a text. */
  lemma Skipped(t: string, i: nat) returns (s: string)
    requires i <= |t|
    ensures Space(s) && Has(t, i, s) && Skip(t, i) == i + |s|
  {
    s := t[i..Skip(t, i)];
    SkippedIsSpace(t, i);
    SliceStands(t, i, Skip(t, i));
    forall k | 0 <= k < |s| ensures 1 <= s[k] as int <= 32 {
      assert s[k] == t[i + k];
    }
  }

  // ----- where a text of the grammar starts and stops -----

  predicate StartsValue(c: char) {
    c as int > 32 && c != ']' && c != '}' && c != ',' && c != ':'
  }

  lemma {:induction false} TextStarts(tree: Tree)
    requires Allowed(tree)
    ensures TextOf(tree) != "" && StartsValue(TextOf(tree)[0])
  {
    match tree
    case NumberTree(n) =>
      assert !n.minus ==> NumberString(n)[0] == n.whole[0];
    case _ =>
  }

  /** What may follow a value inside an array or object. */
  predicate Separates(c: char) {
    1 <= c as int <= 32 || c == ',' || c == ']' || c == '}'
  }

  lemma SeparatedStops(tree: Tree, t: string, e: nat)
    requires Allowed(tree) && Closed(tree) && e <= |t| && Separates(At(t, e))
    ensures StopsAt(tree, t, e)
  {
  }

  /** White space, a value, white space and something that is neither. */
  lemma AroundValue(t: string, i: nat, before: string, x: string, after: string, rest: string, p: nat, q: nat, r: nat)
    requires Has(t, i, before + x + after + rest) && Space(before) && Space(after)
    requires x != "" && StartsValue(x[0]) && rest != "" && (rest[0] == ',' || rest[0] == ']' || rest[0] == '}')
    requires p == i + |before| && q == p + |x| && r == q + |after|
    ensures Has(t, p, x) && Has(t, r, rest) && r < |t| && t[r] == rest[0]
    ensures Skip(t, i) == p && At(t, p) == x[0] && Skip(t, q) == r && Separates(At(t, q))
  {
    HasFour(t, i, before, x, after, rest);
    HasAt(t, p, x, 0);
    HasAt(t, r, rest, 0);
    SpaceIsSkipped(t, i, before);
    SpaceIsSkipped(t, q, after);
    if after != "" {
      HasAt(t, q, after, 0);
    }
  }

  // ----- texts of the grammar are read -----

  lemma WordReads(t: string, i: nat, w: string)
    requires Has(t, i, w)
    ensures i <= |t| && Starts(t, i, w)
  {
    StartsHas(t, i, w);
  }

  lemma {:induction false} NumberTreeReads(n: NumberText, t: string, i: nat, e: nat)
    requires AllowedNumber(n) && Has(t, i, NumberString(n)) && e == i + |NumberString(n)|
    requires StopsAt(NumberTree(n), t, e)
    ensures ParseValue(t, i) == Parsed(Number(NumberMeaning(n)), e)
  {
    NumberReads(n, t, i);
    Tokens.ReadNumber(t, i);
  }

  lemma {:induction false} StringTreeReads(s: StringText, t: string, i: nat, e: nat)
    requires AllowedString(s) && Has(t, i, QuotedString(s)) && e == i + |QuotedString(s)|
    requires StopsAt(StringTree(s), t, e)
    ensures ParseValue(t, i) == Parsed(String(StringMeaning(s)), e)
  {
    StringReads(s, t, i);
    Tokens.ReadString(t, i);
  }

  /** A text of the grammar is read to its end, as what it means. */
  lemma {:induction false} ValueReads(tree: Tree, t: string, i: nat, e: nat)
    requires Allowed(tree) && Has(t, i, TextOf(tree)) && e == i + |TextOf(tree)| && StopsAt(tree, t, e)
    ensures ParseValue(t, i) == Parsed(Meaning(tree), e)
    decreases tree, 0
  {
    match tree
    case NullTree => WordReads(t, i, "null");
    case FalseTree => WordReads(t, i, "false");
    case TrueTree => WordReads(t, i, "true");
    case NumberTree(n) => NumberTreeReads(n, t, i, e);
    case StringTree(s) => StringTreeReads(s, t, i, e);
    case ArrayTree(gap, items) => ArrayReads(gap, items, t, i, e);
    case ObjectTree(gap, entries) => ObjectReads(gap, entries, t, i, e);
  }

  lemma EmptyReads(t: string, i: nat, gap: string, open: char, close: char)
    requires Has(t, i, [open] + (gap + [close])) && Space(gap) && (close == ']' || close == '}')
    ensures i < |t| && t[i] == open && Skip(t, i + 1) == i + 1 + |gap| < |t| && t[i + 1 + |gap|] == close
  {
    HasAppend(t, i, [open], gap + [close]);
    HasChar(t, i, open);
    HasAppend(t, i + 1, gap, [close]);
    HasChar(t, i + 1 + |gap|, close);
    SpaceIsSkipped(t, i + 1, gap);
  }

  lemma {:induction false} ArrayReads(gap: string, items: seq<Item>, t: string, i: nat, e: nat)
    requires Space(gap) && AllowedItems(items)
    requires Has(t, i, "[" + (if items == [] then gap + "]" else ItemsText(items)))
    requires e == i + 1 + (if items == [] then |gap| + 1 else |ItemsText(items)|)
    ensures ParseValue(t, i) == Parsed(Array(ItemsMeaning(items)), e)
    decreases items, 2
  {
    if items == [] {
      EmptyReads(t, i, gap, '[', ']');
      Steps.ReadArray(t, i, e - 1);
    } else {
      HasAppend(t, i, "[", ItemsText(items));
      HasChar(t, i, '[');
      ItemsRead(items, t, i + 1, [], e);
      Steps.ReadArray(t, i, Skip(t, i + 1));
      assert [] + ItemsMeaning(items) == ItemsMeaning(items);
    }
  }

  /** Where the first element and what follows it stand. */
  lemma ItemStands(items: seq<Item>, t: string, i: nat, p: nat, q: nat, r: nat)
    requires items != [] && AllowedItems(items) && Has(t, i, ItemsText(items))
    requires p == i + |items[0].before| && q == p + |TextOf(items[0].value)| && r == q + |items[0].after|
    ensures Has(t, p, TextOf(items[0].value)) && q <= |t| && StopsAt(items[0].value, t, q)
    ensures Skip(t, i) == p && At(t, p) != ']' && Skip(t, q) == r < |t|
    ensures if |items| == 1 then t[r] == ']' && i + |ItemsText(items)| == r + 1
            else t[r] == ',' && Has(t, r + 1, ItemsText(items[1..]))
                 && i + |ItemsText(items)| == r + 1 + |ItemsText(items[1..])|
  {
    var first := items[0];
    var rest := if |items| == 1 then "]" else "," + ItemsText(items[1..]);
    TextStarts(first.value);
    AroundValue(t, i, first.before, TextOf(first.value), first.after, rest, p, q, r);
    SeparatedStops(first.value, t, q);
    if |items| > 1 {
      HasAppend(t, r, ",", ItemsText(items[1..]));
    }
  }

  /** The loop of the parser, by what it finds behind an element. */
  lemma LastItem(t: string, i: nat, p: nat, q: nat, r: nat, before: seq<Json>, v: Json)
    requires i <= |t| && p == Skip(t, i) && ParseValue(t, p) == Parsed(v, q) && q <= |t| && r == Skip(t, q)
    requires At(t, r) == ']'
    ensures ParseMoreItems(t, i, before) == Parsed(Array(before + [v]), r + 1)
  {
    Steps.ItemsStop(t, p, before, v, q, r);
  }

  lemma OneMoreItem(t: string, i: nat, p: nat, q: nat, r: nat, before: seq<Json>, v: Json, rest: seq<Json>, e: nat)
    requires i <= |t| && p == Skip(t, i) && ParseValue(t, p) == Parsed(v, q) && q <= |t| && r == Skip(t, q)
    requires At(t, r) == ','
    requires ParseMoreItems(t, r + 1, before + [v]) == Parsed(Array(before + [v] + rest), e)
    ensures ParseMoreItems(t, i, before) == Parsed(Array(before + ([v] + rest)), e)
  {
    Steps.ItemsGoOn(t, p, before, v, q, r);
    assert before + [v] + rest == before + ([v] + rest);
  }

  lemma ItemsMean(items: seq<Item>)
    requires items != [] && AllowedItems(items)
    ensures ItemsMeaning(items) == [Meaning(items[0].value)] + ItemsMeaning(items[1..])
    ensures |items| == 1 ==> ItemsMeaning(items) == [Meaning(items[0].value)]
  {
    assert |items| == 1 ==> items[1..] == [];
  }

  lemma {:induction false} FirstItemReads(items: seq<Item>, t: string, i: nat) returns (p: nat, q: nat, r: nat, v: Json)
    requires items != [] && AllowedItems(items) && Has(t, i, ItemsText(items))
    ensures i <= |t| && p == Skip(t, i) && At(t, p) != ']' && ParseValue(t, p) == Parsed(v, q)
    ensures q <= |t| && r == Skip(t, q) < |t|
    ensures if |items| == 1 then t[r] == ']' && i + |ItemsText(items)| == r + 1
            else t[r] == ',' && Has(t, r + 1, ItemsText(items[1..]))
                 && i + |ItemsText(items)| == r + 1 + |ItemsText(items[1..])|
    ensures ItemsMeaning(items) == [v] + ItemsMeaning(items[1..]) && (|items| == 1 ==> ItemsMeaning(items) == [v])
    decreases items, 0
  {
    p := i + |items[0].before|;
    q := p + |TextOf(items[0].value)|;
    r := q + |items[0].after|;
    v := Meaning(items[0].value);
    ItemStands(items, t, i, p, q, r);
    ValueReads(items[0].value, t, p, q);
    ItemsMean(items);
  }

  lemma {:induction false} ItemsRead(items: seq<Item>, t: string, i: nat, before: seq<Json>, e: nat)
    requires items != [] && AllowedItems(items) && Has(t, i, ItemsText(items)) && e == i + |ItemsText(items)|
    ensures i <= |t| && ParseMoreItems(t, i, before) == Parsed(Array(before + ItemsMeaning(items)), e)
    ensures At(t, Skip(t, i)) != ']'
    decreases items, 1
  {
    var p, q, r, v := FirstItemReads(items, t, i);
    if |items| == 1 {
      LastItem(t, i, p, q, r, before, v);
    } else {
      ItemsRead(items[1..], t, r + 1, before + [v], e);
      OneMoreItem(t, i, p, q, r, before, v, ItemsMeaning(items[1..]), e);
    }
  }

  lemma {:induction false} ObjectReads(gap: string, entries: seq<Entry>, t: string, i: nat, e: nat)
    requires Space(gap) && AllowedEntries(entries)
    requires Has(t, i, "{" + (if entries == [] then gap + "}" else EntriesText(entries)))
    requires e == i + 1 + (if entries == [] then |gap| + 1 else |EntriesText(entries)|)
    ensures ParseValue(t, i) == Parsed(Object(EntriesMeaning(entries)), e)
    decreases entries, 3
  {
    if entries == [] {
      EmptyReads(t, i, gap, '{', '}');
      Steps.ReadObject(t, i, e - 1);
    } else {
      HasAppend(t, i, "{", EntriesText(entries));
      HasChar(t, i, '{');
      EntriesRead(entries, t, i + 1, [], e);
      Steps.ReadObject(t, i, Skip(t, i + 1));
      assert [] + EntriesMeaning(entries) == EntriesMeaning(entries);
    }
  }

  /** A name, its colon and the white space around them. */
  lemma NameStands(x: Entry, t: string, i: nat, k: nat, n: nat, c: nat)
    requires AllowedName(x) && Has(t, i, NameText(x))
    requires k == i + |x.before| && n == k + |QuotedString(x.name)| && c == n + |x.middle|
    ensures Skip(t, i) == k && Skip(t, n) == c < |t| && t[c] == ':' && c + 1 == i + |NameText(x)|
    ensures k < |t| && t[k] == '\"' && ParseString(t, k) == Text(StringMeaning(x.name), n)
  {
    HasFour(t, i, x.before, QuotedString(x.name), x.middle, ":");
    HasChar(t, c, ':');
    StringReads(x.name, t, k);
    SpaceIsSkipped(t, i, x.before);
    SpaceIsSkipped(t, n, x.middle);
  }

  lemma EntryStands(entries: seq<Entry>, t: string, i: nat, p: nat, v: nat, q: nat, r: nat)
    requires entries != [] && AllowedEntries(entries) && Has(t, i, EntriesText(entries))
    requires p == i + |NameText(entries[0])| && v == p + |entries[0].gap|
    requires q == v + |TextOf(entries[0].value)| && r == q + |entries[0].after|
    ensures Has(t, i, NameText(entries[0]))
    ensures Has(t, v, TextOf(entries[0].value)) && q <= |t| && StopsAt(entries[0].value, t, q)
    ensures Skip(t, p) == v && Skip(t, q) == r < |t|
    ensures if |entries| == 1 then t[r] == '}' && i + |EntriesText(entries)| == r + 1
            else t[r] == ',' && Has(t, r + 1, EntriesText(entries[1..]))
                 && i + |EntriesText(entries)| == r + 1 + |EntriesText(entries[1..])|
  {
    var first := entries[0];
    var rest := if |entries| == 1 then "}" else "," + EntriesText(entries[1..]);
    HasAppend(t, i, NameText(first), first.gap + TextOf(first.value) + first.after + rest);
    TextStarts(first.value);
    AroundValue(t, p, first.gap, TextOf(first.value), first.after, rest, v, q, r);
    SeparatedStops(first.value, t, q);
    if |entries| > 1 {
      HasAppend(t, r, ",", EntriesText(entries[1..]));
    }
  }

  lemma EntryIsMember(t: string, k: nat, name: string, n: nat, c: nat, v: nat, value: Json, q: nat)
    requires k <= |t| && ParseString(t, k) == Text(name, n) && c == Skip(t, n) && At(t, c) == ':' && v == Skip(t, c + 1)
    requires ParseValue(t, v) == Parsed(value, q)
    ensures ParseMember(t, k) == OneMember(Member(name, value), q)
  {
    Steps.MemberRead(t, k, name, n, c, v);
  }

  lemma LastEntry(t: string, i: nat, k: nat, q: nat, r: nat, before: seq<Member>, m: Member)
    requires i <= |t| && k == Skip(t, i) && ParseMember(t, k) == OneMember(m, q) && q <= |t| && r == Skip(t, q)
    requires At(t, r) == '}'
    ensures ParseMoreMembers(t, i, before) == Parsed(Object(before + [m]), r + 1)
  {
    Steps.MembersStop(t, k, before, m, q, r);
  }

  lemma OneMoreEntry(t: string, i: nat, k: nat, q: nat, r: nat, before: seq<Member>, m: Member, rest: seq<Member>,
                     e: nat)
    requires i <= |t| && k == Skip(t, i) && ParseMember(t, k) == OneMember(m, q) && q <= |t| && r == Skip(t, q)
    requires At(t, r) == ','
    requires ParseMoreMembers(t, r + 1, before + [m]) == Parsed(Object(before + [m] + rest), e)
    ensures ParseMoreMembers(t, i, before) == Parsed(Object(before + ([m] + rest)), e)
  {
    Steps.MembersGoOn(t, k, before, m, q, r);
    assert before + [m] + rest == before + ([m] + rest);
  }

  lemma {:induction false} EntryReads(x: Entry, t: string, i: nat, k: nat, v: nat, q: nat, m: Member)
    requires AllowedName(x) && Allowed(x.value) && m == Member(StringMeaning(x.name), Meaning(x.value))
    requires Has(t, i, NameText(x)) && k == i + |x.before| && v == Skip(t, i + |NameText(x)|)
    requires Has(t, v, TextOf(x.value)) && q == v + |TextOf(x.value)| && StopsAt(x.value, t, q)
    ensures Skip(t, i) == k < |t| && t[k] == '\"' && ParseMember(t, k) == OneMember(m, q)
    decreases x
  {
    var n := k + |QuotedString(x.name)|;
    NameStands(x, t, i, k, n, n + |x.middle|);
    ValueReads(x.value, t, v, q);
    EntryIsMember(t, k, m.name, n, n + |x.middle|, v, m.value, q);
  }

  lemma EntriesMean(entries: seq<Entry>)
    requires entries != [] && AllowedEntries(entries)
    ensures var m := Member(StringMeaning(entries[0].name), Meaning(entries[0].value));
            && EntriesMeaning(entries) == [m] + EntriesMeaning(entries[1..])
            && (|entries| == 1 ==> EntriesMeaning(entries) == [m])
  {
    assert |entries| == 1 ==> entries[1..] == [];
  }

  lemma {:induction false} FirstEntryReads(entries: seq<Entry>, t: string, i: nat)
    returns (k: nat, q: nat, r: nat, m: Member)
    requires entries != [] && AllowedEntries(entries) && Has(t, i, EntriesText(entries))
    ensures i <= |t| && k == Skip(t, i) < |t| && t[k] == '\"' && ParseMember(t, k) == OneMember(m, q)
    ensures q <= |t| && r == Skip(t, q) < |t|
    ensures if |entries| == 1 then t[r] == '}' && i + |EntriesText(entries)| == r + 1
            else t[r] == ',' && Has(t, r + 1, EntriesText(entries[1..]))
                 && i + |EntriesText(entries)| == r + 1 + |EntriesText(entries[1..])|
    ensures EntriesMeaning(entries) == [m] + EntriesMeaning(entries[1..])
    ensures |entries| == 1 ==> EntriesMeaning(entries) == [m]
    decreases entries, 1
  {
    var x := entries[0];
    var p := i + |NameText(x)|;
    var v := p + |x.gap|;
    k, q := i + |x.before|, v + |TextOf(x.value)|;
    r := q + |x.after|;
    m := Member(StringMeaning(x.name), Meaning(x.value));
    EntryStands(entries, t, i, p, v, q, r);
    EntryReads(x, t, i, k, v, q, m);
    EntriesMean(entries);
  }

  lemma {:induction false} EntriesRead(entries: seq<Entry>, t: string, i: nat, before: seq<Member>, e: nat)
    requires entries != [] && AllowedEntries(entries) && Has(t, i, EntriesText(entries))
    requires e == i + |EntriesText(entries)|
    ensures i <= |t| && ParseMoreMembers(t, i, before) == Parsed(Object(before + EntriesMeaning(entries)), e)
    ensures At(t, Skip(t, i)) != '}'
    decreases entries, 2
  {
    var k, q, r, m := FirstEntryReads(entries, t, i);
    if |entries| == 1 {
      LastEntry(t, i, k, q, r, before, m);
    } else {
      EntriesRead(entries[1..], t, r + 1, before + [m], e);
      OneMoreEntry(t, i, k, q, r, before, m, EntriesMeaning(entries[1..]), e);
    }
  }
}
