/**
 What cJSON accepts: every text the parser takes is one of the grammar, whole texts,
 and which of them are texts of RFC 8259.
 */
module JsonAccepted {
  import opened JsonText
  import opened JsonParse
  import opened JsonNumberEnds
  import opened JsonSyntax
  import opened JsonReadNumbers
  import opened JsonReadStrings
  import opened JsonGrammar
  import Tokens = JsonMinifyTokens
  import Steps = JsonMinifyParse

  // ----- whatever is read is a text of the grammar -----

  /** A tree whose text stands at `i`, ends at `e` and goes no further. */
  predicate Stands(tree: Tree, t: string, i: nat, e: nat) {
    Allowed(tree) && Has(t, i, TextOf(tree)) && e == i + |TextOf(tree)| && StopsAt(tree, t, e)
  }

  lemma {:induction false} WordIsText(t: string, i: nat) returns (tree: Tree)
    requires i <= |t| && ParseValue(t, i).Parsed? && Tokens.WordLetter(At(t, i))
    ensures Stands(tree, t, i, ParseValue(t, i).end)
  {
    Tokens.ReadWord(t, i);
    StartsHas(t, i, "null");
    StartsHas(t, i, "false");
    StartsHas(t, i, "true");
    tree := if Starts(t, i, "null") then NullTree else if Starts(t, i, "false") then FalseTree else TrueTree;
  }

  lemma {:induction false} NumberTreeOf(t: string, i: nat) returns (tree: Tree)
    requires NumberStarts(t, i)
    ensures ParseValue(t, i).Parsed? && Stands(tree, t, i, ParseValue(t, i).end)
  {
    var n := NumberIsText(t, i);
    Tokens.ReadNumber(t, i);
    tree := NumberTree(n);
  }

  lemma {:induction false} StringTreeOf(t: string, i: nat) returns (tree: Tree)
    requires i < |t| && t[i] == '\"' && ParseValue(t, i).Parsed?
    ensures Stands(tree, t, i, ParseValue(t, i).end)
  {
    Tokens.ReadString(t, i);
    var s := StringIsText(t, i);
    tree := StringTree(s);
  }

  /** A text that was read as a value. */
  lemma {:induction false} ValueIsText(t: string, i: nat) returns (tree: Tree)
    requires i <= |t| && ParseValue(t, i).Parsed?
    ensures Stands(tree, t, i, ParseValue(t, i).end)
    decreases |t| - i, 2
  {
    var c := At(t, i);
    if Tokens.WordLetter(c) {
      tree := WordIsText(t, i);
    } else if c == '\"' {
      tree := StringTreeOf(t, i);
    } else if c == '-' || IsDigit(c) {
      tree := NumberTreeOf(t, i);
    } else if c == '[' {
      tree := ArrayIsText(t, i, ParseValue(t, i).end);
    } else if c == '{' {
      tree := ObjectIsText(t, i, ParseValue(t, i).end);
    } else {
      Tokens.ReadNothing(t, i);
    }
  }

  lemma EmptyStands(t: string, i: nat, j: nat, gap: string, open: char, close: char)
    requires i < |t| && t[i] == open && Has(t, i + 1, gap) && j == i + 1 + |gap| && At(t, j) == close && close != '\0'
    ensures Has(t, i, [open] + (gap + [close])) && |[open] + (gap + [close])| == j + 1 - i
  {
    HasChar(t, i, open);
    HasChar(t, j, close);
    HasAppend(t, i + 1, gap, [close]);
    HasAppend(t, i, [open], gap + [close]);
  }

  lemma WrappedItems(t: string, i: nat, items: seq<Item>) returns (tree: Tree)
    requires i < |t| && t[i] == '[' && items != [] && AllowedItems(items) && Has(t, i + 1, ItemsText(items))
    ensures Stands(tree, t, i, i + 1 + |ItemsText(items)|)
  {
    HasChar(t, i, '[');
    HasAppend(t, i, "[", ItemsText(items));
    tree := ArrayTree("", items);
  }

  lemma {:induction false} ArrayParts(t: string, i: nat)
    requires i < |t| && t[i] == '['
    ensures ParseValue(t, i) ==
            if At(t, Skip(t, i + 1)) == ']' then Parsed(Array([]), Skip(t, i + 1) + 1)
            else ParseMoreItems(t, i + 1, [])
  {
    Steps.ReadArray(t, i, Skip(t, i + 1));
  }

  lemma EmptyArrayOf(t: string, i: nat, j: nat) returns (tree: Tree)
    requires i < |t| && t[i] == '[' && j == Skip(t, i + 1) && At(t, j) == ']'
    ensures Stands(tree, t, i, j + 1)
  {
    var gap := Skipped(t, i + 1);
    EmptyStands(t, i, j, gap, '[', ']');
    tree := ArrayTree(gap, []);
  }

  lemma {:induction false} FilledArrayOf(t: string, i: nat, e: nat) returns (tree: Tree)
    requires i < |t| && t[i] == '[' && ParseMoreItems(t, i + 1, []).Parsed? && ParseMoreItems(t, i + 1, []).end == e
    ensures Stands(tree, t, i, e)
    decreases |t| - i, 0
  {
    var items := ItemsOf(t, i + 1, []);
    tree := WrappedItems(t, i, items);
  }

  lemma {:induction false} ArrayIsText(t: string, i: nat, e: nat) returns (tree: Tree)
    requires i < |t| && t[i] == '[' && ParseValue(t, i).Parsed? && ParseValue(t, i).end == e
    ensures Stands(tree, t, i, e)
    decreases |t| - i, 1
  {
    ArrayParts(t, i);
    if At(t, Skip(t, i + 1)) == ']' {
      tree := EmptyArrayOf(t, i, e - 1);
    } else {
      tree := FilledArrayOf(t, i, e);
    }
  }

  /** A value with something else behind it than the text's end is closed. */
  lemma ClosedBefore(tree: Tree, t: string, i: nat, q: nat)
    requires Stands(tree, t, i, q) && q <= |t| && At(t, Skip(t, q)) != '\0'
    ensures Closed(tree)
  {
  }

  lemma PutItem(t: string, i: nat, p: nat, q: nat, r: nat, item: Item, rest: string)
    requires Stands(item.value, t, p, q) && Has(t, i, item.before) && p == i + |item.before|
    requires Has(t, q, item.after) && r == q + |item.after| && Has(t, r, rest)
    ensures Has(t, i, item.before + TextOf(item.value) + item.after + rest)
  {
    HasFour(t, i, item.before, TextOf(item.value), item.after, rest);
  }

  lemma OnlyItem(t: string, i: nat, p: nat, q: nat, r: nat, item: Item) returns (items: seq<Item>)
    requires Space(item.before) && Space(item.after) && Closed(item.value)
    requires Has(t, i, item.before) && p == i + |item.before| && Stands(item.value, t, p, q)
    requires Has(t, q, item.after) && r == q + |item.after| < |t| && t[r] == ']'
    ensures items != [] && AllowedItems(items) && Has(t, i, ItemsText(items)) && r + 1 == i + |ItemsText(items)|
  {
    items := [item];
    HasChar(t, r, ']');
    PutItem(t, i, p, q, r, item, "]");
  }

  lemma FirstOfItems(t: string, i: nat, p: nat, q: nat, r: nat, item: Item, more: seq<Item>) returns (items: seq<Item>)
    requires Space(item.before) && Space(item.after) && Closed(item.value)
    requires Has(t, i, item.before) && p == i + |item.before| && Stands(item.value, t, p, q)
    requires Has(t, q, item.after) && r == q + |item.after| < |t| && t[r] == ','
    requires more != [] && AllowedItems(more) && Has(t, r + 1, ItemsText(more))
    ensures items != [] && AllowedItems(items) && Has(t, i, ItemsText(items))
    ensures r + 1 + |ItemsText(more)| == i + |ItemsText(items)|
  {
    items := [item] + more;
    HasChar(t, r, ',');
    HasAppend(t, r, ",", ItemsText(more));
    PutItem(t, i, p, q, r, item, "," + ItemsText(more));
    assert items[1..] == more;
  }

  /** The next element and what stands behind it. */
  lemma ItemThere(t: string, p: nat, before: seq<Json>) returns (v: Json, q: nat, r: nat)
    requires p <= |t| && ParseItems(t, p, before).Parsed?
    ensures ParseValue(t, p) == Parsed(v, q) && p < q <= |t| && r == Skip(t, q) < |t| && (t[r] == ',' || t[r] == ']')
    ensures t[r] == ']' ==> ParseItems(t, p, before).end == r + 1
    ensures t[r] == ',' ==> ParseItems(t, p, before) == ParseMoreItems(t, r + 1, before + [v])
  {
    if !ParseValue(t, p).Parsed? {
      Steps.ItemsFail(t, p, before);
    }
    v, q := ParseValue(t, p).value, ParseValue(t, p).end;
    r := Skip(t, q);
    if At(t, r) == ',' {
      Steps.ItemsGoOn(t, p, before, v, q, r);
    } else {
      Steps.ItemsStop(t, p, before, v, q, r);
    }
  }

  lemma {:induction false} ItemsOf(t: string, i: nat, before: seq<Json>) returns (items: seq<Item>)
    requires i <= |t| && ParseMoreItems(t, i, before).Parsed?
    ensures items != [] && AllowedItems(items) && Has(t, i, ItemsText(items))
    ensures ParseMoreItems(t, i, before).end == i + |ItemsText(items)|
    decreases |t| - i, 3
  {
    var p := Skip(t, i);
    var front := Skipped(t, i);
    var v, q, r := ItemThere(t, p, before);
    var back := Skipped(t, q);
    var tree := ValueIsText(t, p);
    ClosedBefore(tree, t, p, q);
    if t[r] == ']' {
      items := OnlyItem(t, i, p, q, r, Item(front, tree, back));
    } else {
      var more := ItemsOf(t, r + 1, before + [v]);
      items := FirstOfItems(t, i, p, q, r, Item(front, tree, back), more);
    }
  }

  lemma WrappedEntries(t: string, i: nat, entries: seq<Entry>) returns (tree: Tree)
    requires i < |t| && t[i] == '{' && entries != [] && AllowedEntries(entries) && Has(t, i + 1, EntriesText(entries))
    ensures Stands(tree, t, i, i + 1 + |EntriesText(entries)|)
  {
    HasChar(t, i, '{');
    HasAppend(t, i, "{", EntriesText(entries));
    tree := ObjectTree("", entries);
  }

  lemma {:induction false} ObjectParts(t: string, i: nat)
    requires i < |t| && t[i] == '{'
    ensures ParseValue(t, i) ==
            if At(t, Skip(t, i + 1)) == '}' then Parsed(Object([]), Skip(t, i + 1) + 1)
            else ParseMoreMembers(t, i + 1, [])
  {
    Steps.ReadObject(t, i, Skip(t, i + 1));
  }

  lemma EmptyObjectOf(t: string, i: nat, j: nat) returns (tree: Tree)
    requires i < |t| && t[i] == '{' && j == Skip(t, i + 1) && At(t, j) == '}'
    ensures Stands(tree, t, i, j + 1)
  {
    var gap := Skipped(t, i + 1);
    EmptyStands(t, i, j, gap, '{', '}');
    tree := ObjectTree(gap, []);
  }

  lemma {:induction false} FilledObjectOf(t: string, i: nat, e: nat) returns (tree: Tree)
    requires i < |t| && t[i] == '{' && ParseMoreMembers(t, i + 1, []).Parsed? && ParseMoreMembers(t, i + 1, []).end == e
    ensures Stands(tree, t, i, e)
    decreases |t| - i, 0
  {
    var entries := EntriesOf(t, i + 1, []);
    tree := WrappedEntries(t, i, entries);
  }

  lemma {:induction false} ObjectIsText(t: string, i: nat, e: nat) returns (tree: Tree)
    requires i < |t| && t[i] == '{' && ParseValue(t, i).Parsed? && ParseValue(t, i).end == e
    ensures Stands(tree, t, i, e)
    decreases |t| - i, 1
  {
    ObjectParts(t, i);
    if At(t, Skip(t, i + 1)) == '}' {
      tree := EmptyObjectOf(t, i, e - 1);
    } else {
      tree := FilledObjectOf(t, i, e);
    }
  }

  lemma NameThere(t: string, k: nat, m: Member, q: nat) returns (n: nat, c: nat, v: nat)
    requires k <= |t| && ParseMember(t, k) == OneMember(m, q)
    ensures ParseString(t, k) == Text(m.name, n) && n <= |t| && c == Skip(t, n) < |t| && t[c] == ':'
    ensures k < v == Skip(t, c + 1) && ParseValue(t, v) == Parsed(m.value, q)
  {
    n := ParseString(t, k).end;
    c := Skip(t, n);
    v := Skip(t, c + 1);
  }

  /** The next member: its name, its value and what stands behind it. */
  lemma MemberThere(t: string, k: nat, before: seq<Member>)
    returns (m: Member, n: nat, c: nat, v: nat, q: nat, r: nat)
    requires k <= |t| && ParseMembers(t, k, before).Parsed?
    ensures ParseString(t, k) == Text(m.name, n) && n <= |t| && c == Skip(t, n) < |t| && t[c] == ':'
    ensures k < v == Skip(t, c + 1) && ParseValue(t, v) == Parsed(m.value, q) && v < q <= |t|
    ensures r == Skip(t, q) < |t| && (t[r] == ',' || t[r] == '}')
    ensures t[r] == '}' ==> ParseMembers(t, k, before).end == r + 1
    ensures t[r] == ',' ==> ParseMembers(t, k, before) == ParseMoreMembers(t, r + 1, before + [m])
  {
    if ParseMember(t, k).NoMember? {
      Steps.MembersFail(t, k, before);
    }
    m, q := ParseMember(t, k).member, ParseMember(t, k).end;
    n, c, v := NameThere(t, k, m, q);
    r := Skip(t, q);
    if At(t, r) == ',' {
      Steps.MembersGoOn(t, k, before, m, q, r);
    } else {
      Steps.MembersStop(t, k, before, m, q, r);
    }
  }

  /** A name with its colon, put together. */
  lemma PutName(t: string, i: nat, k: nat, n: nat, c: nat, x: Entry)
    requires Has(t, i, x.before) && k == i + |x.before| && Has(t, k, QuotedString(x.name))
    requires n == k + |QuotedString(x.name)|
    requires Has(t, n, x.middle) && c == n + |x.middle| < |t| && t[c] == ':'
    ensures Has(t, i, NameText(x)) && c + 1 == i + |NameText(x)|
  {
    HasChar(t, c, ':');
    HasFour(t, i, x.before, QuotedString(x.name), x.middle, ":");
  }

  lemma PutEntry(t: string, i: nat, p: nat, v: nat, q: nat, r: nat, x: Entry, rest: string)
    requires Has(t, i, NameText(x)) && p == i + |NameText(x)| && Has(t, p, x.gap) && v == p + |x.gap|
    requires Stands(x.value, t, v, q) && Has(t, q, x.after) && r == q + |x.after| && Has(t, r, rest)
    ensures Has(t, i, NameText(x) + (x.gap + TextOf(x.value) + x.after + rest))
  {
    HasFour(t, p, x.gap, TextOf(x.value), x.after, rest);
    HasAppend(t, i, NameText(x), x.gap + TextOf(x.value) + x.after + rest);
  }

  /** The name of a member, as it stands. */
  lemma {:induction false} NameOf(t: string, i: nat, m: Member, n: nat, c: nat, v: nat) returns (x: Entry)
    requires i <= |t| && ParseString(t, Skip(t, i)) == Text(m.name, n) && n <= |t| && c == Skip(t, n) < |t|
    requires t[c] == ':'
    requires v == Skip(t, c + 1)
    ensures AllowedName(x) && Has(t, i, NameText(x)) && c + 1 == i + |NameText(x)|
    ensures Has(t, c + 1, x.gap) && v == c + 1 + |x.gap|
  {
    var k := Skip(t, i);
    var before := Skipped(t, i);
    var name := StringIsText(t, k);
    var middle := Skipped(t, n);
    var gap := Skipped(t, c + 1);
    x := Entry(before, name, middle, gap, NullTree, "");
    PutName(t, i, k, n, c, x);
  }

  lemma OnlyEntry(t: string, i: nat, p: nat, v: nat, q: nat, r: nat, x: Entry) returns (entries: seq<Entry>)
    requires AllowedName(x) && Closed(x.value) && Space(x.after)
    requires Has(t, i, NameText(x)) && p == i + |NameText(x)| && Has(t, p, x.gap) && v == p + |x.gap|
    requires Stands(x.value, t, v, q) && Has(t, q, x.after) && r == q + |x.after| < |t| && t[r] == '}'
    ensures entries != [] && AllowedEntries(entries) && Has(t, i, EntriesText(entries))
    ensures r + 1 == i + |EntriesText(entries)|
  {
    entries := [x];
    HasChar(t, r, '}');
    PutEntry(t, i, p, v, q, r, x, "}");
  }

  lemma FirstOfEntries(t: string, i: nat, p: nat, v: nat, q: nat, r: nat, x: Entry, more: seq<Entry>)
    returns (entries: seq<Entry>)
    requires AllowedName(x) && Closed(x.value) && Space(x.after)
    requires Has(t, i, NameText(x)) && p == i + |NameText(x)| && Has(t, p, x.gap) && v == p + |x.gap|
    requires Stands(x.value, t, v, q) && Has(t, q, x.after) && r == q + |x.after| < |t| && t[r] == ','
    requires more != [] && AllowedEntries(more) && Has(t, r + 1, EntriesText(more))
    ensures entries != [] && AllowedEntries(entries) && Has(t, i, EntriesText(entries))
    ensures r + 1 + |EntriesText(more)| == i + |EntriesText(entries)|
  {
    entries := [x] + more;
    HasChar(t, r, ',');
    HasAppend(t, r, ",", EntriesText(more));
    PutEntry(t, i, p, v, q, r, x, "," + EntriesText(more));
    assert entries[1..] == more;
  }

  lemma FirstEntryOf(t: string, i: nat, before: seq<Member>)
    returns (m: Member, x: Entry, p: nat, v: nat, q: nat, r: nat)
    requires i <= |t| && ParseMoreMembers(t, i, before).Parsed?
    ensures AllowedName(x) && Has(t, i, NameText(x)) && p == i + |NameText(x)| && i < p
    ensures Has(t, p, x.gap) && p <= v == p + |x.gap| <= |t| && ParseValue(t, v) == Parsed(m.value, q)
    ensures v < q <= |t| && r == Skip(t, q) < |t| && (t[r] == ',' || t[r] == '}')
    ensures t[r] == '}' ==> ParseMoreMembers(t, i, before).end == r + 1
    ensures t[r] == ',' ==> ParseMoreMembers(t, i, before) == ParseMoreMembers(t, r + 1, before + [m])
  {
    var n, c;
    m, n, c, v, q, r := MemberThere(t, Skip(t, i), before);
    x := NameOf(t, i, m, n, c, v);
    p := c + 1;
  }

  lemma {:induction false} EntriesOf(t: string, i: nat, before: seq<Member>) returns (entries: seq<Entry>)
    requires i <= |t| && ParseMoreMembers(t, i, before).Parsed?
    ensures entries != [] && AllowedEntries(entries) && Has(t, i, EntriesText(entries))
    ensures ParseMoreMembers(t, i, before).end == i + |EntriesText(entries)|
    decreases |t| - i, 3
  {
    var m, named, p, v, q, r := FirstEntryOf(t, i, before);
    var back := Skipped(t, q);
    var tree := ValueIsText(t, v);
    ClosedBefore(tree, t, v, q);
    var x := named.(value := tree, after := back);
    if t[r] == '}' {
      entries := OnlyEntry(t, i, p, v, q, r, x);
    } else {
      var more := EntriesOf(t, r + 1, before + [m]);
      entries := FirstOfEntries(t, i, p, v, q, r, x, more);
    }
  }

  /** The parser reads a value exactly where a text of the grammar stands, up to its end
      and as what it means. */
  lemma {:induction false} ReadExactlyWhen(t: string, i: nat, v: Json, e: nat)
    requires i <= |t|
    ensures ParseValue(t, i) == Parsed(v, e) <==> exists tree :: Stands(tree, t, i, e) && Meaning(tree) == v
  {
    if ParseValue(t, i) == Parsed(v, e) {
      var tree := ValueIsText(t, i);
      ValueReads(tree, t, i, e);
    }
    if tree :| Stands(tree, t, i, e) && Meaning(tree) == v {
      ValueReads(tree, t, i, e);
    }
  }

  // ----- whole texts -----

  /** White space, a text of the grammar that ends at `q`, and, where the whole text
      counts, white space up to its end. */
  predicate IsDocument(t: string, whole: bool, before: string, tree: Tree, q: nat, e: nat) {
    && Space(before) && Has(t, 0, before) && Stands(tree, t, |before|, q)
    && if whole then q <= e <= |t| && Space(t[q..e]) && At(t, e) == '\0' else e == q
  }

  lemma TreeStarts(tree: Tree, t: string, i: nat, e: nat)
    requires Stands(tree, t, i, e)
    ensures i < |t| && !IsSpace(t[i]) && e <= |t|
  {
    TextStarts(tree);
    HasAt(t, i, TextOf(tree), 0);
  }

  lemma {:induction false} DocumentReads(t: string, whole: bool, before: string, tree: Tree, q: nat, e: nat)
    requires IsDocument(t, whole, before, tree, q, e)
    ensures ParseDocument(t, whole) == Parsed(Meaning(tree), e)
  {
    TreeStarts(tree, t, |before|, q);
    SpaceIsSkipped(t, 0, before);
    ValueReads(tree, t, |before|, q);
    if whole {
      SliceStands(t, q, e);
      SpaceIsSkipped(t, q, t[q..e]);
    }
  }

  lemma {:induction false} DocumentIsText(t: string, whole: bool) returns (before: string, tree: Tree, q: nat)
    requires ParseDocument(t, whole).Parsed?
    ensures IsDocument(t, whole, before, tree, q, ParseDocument(t, whole).end)
  {
    before := Skipped(t, 0);
    tree := ValueIsText(t, Skip(t, 0));
    q := ParseValue(t, Skip(t, 0)).end;
    if whole {
      var after := Skipped(t, q);
      assert t[q..Skip(t, q)] == after;
    }
  }

  /** Exactly which texts are accepted, as what and up to where. */
  lemma {:induction false} AcceptedExactlyWhen(t: string, whole: bool, v: Json, e: nat)
    ensures ParseDocument(t, whole) == Parsed(v, e) <==>
            exists before, tree, q :: IsDocument(t, whole, before, tree, q, e) && Meaning(tree) == v
  {
    if ParseDocument(t, whole) == Parsed(v, e) {
      var before, tree, q := DocumentIsText(t, whole);
      DocumentReads(t, whole, before, tree, q, e);
    }
    if before, tree, q :| IsDocument(t, whole, before, tree, q, e) && Meaning(tree) == v {
      DocumentReads(t, whole, before, tree, q, e);
    }
  }

  lemma BeforeSpace(tree: Tree, t: string, q: nat, after: string)
    requires Allowed(tree) && Closed(tree) && q <= |t| && t[q..] == after && Space(after)
    ensures StopsAt(tree, t, q)
  {
    if after != "" {
      assert t[q] == after[0];
      SeparatedStops(tree, t, q);
    }
  }

  lemma MoreBehind(t: string, v: Json, q: nat, at: nat)
    requires ParseValue(t, Skip(t, 0)) == Parsed(v, q) && q <= |t| && at == Skip(t, q) && At(t, at) != '\0'
    ensures ParseDocument(t, true) == Rejected(at)
  {
  }

  /** Where more than white space follows a value that must be all, the text is rejected
      at the first character that is not white space. */
  lemma {:induction false} RestIsRejected(t: string, before: string, tree: Tree, q: nat, gap: string, at: nat)
    requires Space(before) && Has(t, 0, before) && Stands(tree, t, |before|, q)
    requires Has(t, q, gap) && Space(gap) && at == q + |gap| < |t| && t[at] as int > 32
    ensures ParseDocument(t, true) == Rejected(at)
  {
    TreeStarts(tree, t, |before|, q);
    SpaceIsSkipped(t, 0, before);
    ValueReads(tree, t, |before|, q);
    SpaceIsSkipped(t, q, gap);
    MoreBehind(t, Meaning(tree), q, at);
  }

  /** Every text of RFC 8259 is accepted as what it means, to its end. */
  lemma {:induction false} JsonTextsAreAccepted(before: string, tree: Tree, after: string)
    requires StrictSpace(before) && Strict(tree) && StrictSpace(after)
    ensures Allowed(tree)
    ensures var t := before + TextOf(tree) + after;
            ParseDocument(t, true) == Parsed(Meaning(tree), |t|)
  {
    var t := before + TextOf(tree) + after;
    var q := |before| + |TextOf(tree)|;
    StrictIsAllowed(tree);
    assert Has(t, 0, t);
    HasThree(t, 0, before, TextOf(tree), after);
    assert t[q..|t|] == after;
    BeforeSpace(tree, t, q, after);
    DocumentReads(t, true, before, tree, q, |t|);
  }

  // ----- texts beyond the RFC -----

  /** A sign alone is read as zero. */
  lemma SignIsAccepted(tree: Tree)
    requires tree == NumberTree(NumberText(true, "", "", NoExponent))
    ensures Allowed(tree) && !Strict(tree) && TextOf(tree) == "-"
    ensures ParseDocument("-", true) == Parsed(Number(0.0), 1)
  {
    var t := "-";
    assert Natural("" + "") == 0 && Scaled(0, 0) == 0.0;
    assert Space("") && t[1..1] == "";
    DocumentReads(t, true, "", tree, 1, 1);
  }
}
