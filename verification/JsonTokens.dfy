/**
 Minifying a text given as tokens with white space and comments between them
 leaves exactly the tokens, and doing it again changes nothing.
 */
module JsonTokens {
  import opened CStrings
  import opened JsonText
  import opened JsonMinify

  datatype Item =
    | Token(text: string)
    | Blank(c: char)
    | LineComment(body: string)
    | BlockComment(body: string)

  /** Space, tab, line feed or carriage return. */
  predicate IsGap(c: char) {
    c as int == 32 || c as int == 9 || c as int == 10 || c as int == 13
  }

  predicate IsOrdinary(c: char) {
    c != '\0' && c != '\"' && c != '/' && !IsGap(c)
  }

  /** A nonempty run of characters that are no quote, slash or white space, or a
      whole string literal. */
  predicate IsToken(p: string) {
    || (p != [] && forall k :: 0 <= k < |p| ==> IsOrdinary(p[k]))
    || (|p| > 1 && p[0] == '\"' && StringEnd(p, 1) == |p| - 1)
  }

  predicate NoClose(body: string) {
    forall k :: 0 <= k < |body| - 1 ==> !(body[k] == '*' && body[k + 1] == '/')
  }

  /** A line comment is ended by its line; a block comment's body does not contain
      its end and, because the scanner takes the text slash, star, slash for a
      whole comment, does not start with a slash. */
  predicate Valid(item: Item) {
    match item
    case Token(p) => IsToken(p)
    case Blank(c) => IsGap(c)
    case LineComment(body) => forall k :: 0 <= k < |body| ==> body[k] != '\0' && body[k] != '\n'
    case BlockComment(body) =>
      CString(body) && NoClose(body) && (body != [] ==> body[0] != '/')
  }

  function ItemText(item: Item): string {
    match item
    case Token(p) => p
    case Blank(c) => [c]
    case LineComment(body) => "//" + body + "\n"
    case BlockComment(body) => "/*" + body + "*/"
  }

  function Text(items: seq<Item>): string {
    if items == [] then "" else ItemText(items[0]) + Text(items[1..])
  }

  function TokenText(items: seq<Item>): string {
    if items == [] then ""
    else (if items[0].Token? then items[0].text else "") + TokenText(items[1..])
  }

  function Tokens(items: seq<Item>): (r: seq<Item>)
    ensures forall k :: 0 <= k < |r| ==> r[k].Token? && r[k] in items
  {
    if items == [] then []
    else if items[0].Token? then [items[0]] + Tokens(items[1..])
    else Tokens(items[1..])
  }

  // ----- one item -----

  lemma {:induction false} LiteralStandsAlone(p: string, k: nat, t: string, i: nat)
    requires Has(t, i, p) && k <= |p| && StringEnd(p, k) < |p|
    ensures StringEnd(t, i + k) == i + StringEnd(p, k)
    decreases |p| - k
  {
    HasAt(t, i, p, k);
    if p[k] == '\\' {
      HasAt(t, i, p, k + 1);
      LiteralStandsAlone(p, k + 2, t, i);
    } else if p[k] != '\"' {
      LiteralStandsAlone(p, k + 1, t, i);
    }
  }

  lemma TokenStays(t: string, i: nat, p: string, e: nat)
    requires Has(t, i, p) && IsToken(p) && e == i + |p|
    ensures Leaves(t, i, e, p)
  {
    if forall k :: 0 <= k < |p| ==> IsOrdinary(p[k]) {
      PlainsStay(t, i, p, e);
    } else {
      LiteralStandsAlone(p, 1, t, i);
      LiteralStays(t, i, p, e);
    }
  }

  lemma {:induction false} LineEndsThere(t: string, i: nat, e: nat)
    requires i <= e < |t| && t[e] == '\n'
    requires forall k :: i <= k < e ==> t[k] != '\0' && t[k] != '\n'
    ensures LineEnd(t, i) == e
    decreases e - i
  {
    if i < e {
      LineEndsThere(t, i + 1, e);
    }
  }

  lemma DropGoes(t: string, i: nat, e: nat)
    requires i < |t| && t[i] != '\0' && PieceAt(t, i) == Drop(e)
    ensures Leaves(t, i, e, "")
  {
    if Minifiable(t, e) {
      assert "" + Minify(t, e) == Minify(t, e);
    }
  }

  lemma LineGoes(t: string, i: nat, body: string, e: nat)
    requires Valid(LineComment(body)) && Has(t, i, "//" + body + "\n") && e == i + |body| + 3
    ensures Leaves(t, i, e, "")
  {
    HasThree(t, i, "//", body, "\n");
    HasAt(t, i, "//", 0);
    HasAt(t, i, "//", 1);
    HasChar(t, e - 1, '\n');
    forall k | i + 1 <= k < e - 1 ensures t[k] != '\0' && t[k] != '\n' {
      if k > i + 1 {
        HasAt(t, i + 2, body, k - i - 2);
      }
    }
    LineEndsThere(t, i + 1, e - 1);
    BlankGoes(t, e - 1, '\n');
    DropGoes(t, i, e - 1);
    Together(t, i, e - 1, e, "", "");
  }

  lemma {:induction false} BlockEndsThere(t: string, i: nat, e: nat)
    requires i <= e && e + 1 < |t| && t[e] == '*' && t[e + 1] == '/'
    requires forall k :: i <= k < e ==> t[k] != '\0' && !ClosesBlock(t, k)
    ensures BlockEnd(t, i) == e
    decreases e - i
  {
    if i < e {
      BlockEndsThere(t, i + 1, e);
    }
  }

  lemma BlockLayout(t: string, i: nat, body: string, e: nat)
    requires CString(body) && Has(t, i, "/*" + body + "*/") && e == i + |body| + 4
    ensures e <= |t| && t[i] == '/' && t[i + 1] == '*' && t[e - 2] == '*' && t[e - 1] == '/'
    ensures Has(t, i + 2, body) && forall k :: i <= k < e ==> t[k] != '\0'
  {
    HasThree(t, i, "/*", body, "*/");
    HasAt(t, i, "/*", 0);
    HasAt(t, i, "/*", 1);
    HasAt(t, e - 2, "*/", 0);
    HasAt(t, e - 2, "*/", 1);
    forall k | i <= k < e ensures t[k] != '\0' {
      if i + 2 <= k < e - 2 {
        HasAt(t, i + 2, body, k - i - 2);
      }
    }
  }

  lemma BodyDoesNotClose(t: string, i: nat, body: string, e: nat)
    requires CString(body) && NoClose(body) && Has(t, i, "/*" + body + "*/") && e == i + |body| + 4
    requires body == "" || body[0] != '/'
    ensures BlockEnd(t, i) == e - 2
  {
    BlockLayout(t, i, body, e);
    forall k | i <= k < e - 2 ensures t[k] != '\0' && !ClosesBlock(t, k) {
      if k == i + 1 {
        if body != [] {
          HasAt(t, i + 2, body, 0);
        }
      } else if k > i + 1 {
        HasAt(t, i + 2, body, k - i - 2);
        if k + 1 < e - 2 {
          HasAt(t, i + 2, body, k - i - 1);
        }
      }
    }
    BlockEndsThere(t, i, e - 2);
  }

  /** A block comment is passed over as a whole exactly if its body does not start
      with a slash; if it does, the scan goes on behind that slash. */
  lemma BlockEndsExactlyWhen(t: string, i: nat, body: string)
    requires CString(body) && NoClose(body) && Has(t, i, "/*" + body + "*/")
    ensures PieceAt(t, i) == Drop(i + |body| + 4) <==> body == "" || body[0] != '/'
    ensures body != "" && body[0] == '/' ==> PieceAt(t, i) == Drop(i + 3)
  {
    var e := i + |body| + 4;
    BlockLayout(t, i, body, e);
    if body == "" || body[0] != '/' {
      BodyDoesNotClose(t, i, body, e);
    } else {
      HasAt(t, i + 2, body, 0);
      assert BlockEnd(t, i + 1) == i + 1;
    }
  }

  lemma BlockGoes(t: string, i: nat, body: string, e: nat)
    requires Valid(BlockComment(body)) && Has(t, i, "/*" + body + "*/") && e == i + |body| + 4
    ensures Leaves(t, i, e, "")
  {
    BlockLayout(t, i, body, e);
    BlockEndsExactlyWhen(t, i, body);
    DropGoes(t, i, e);
  }

  lemma ItemMinifies(t: string, i: nat, item: Item, e: nat)
    requires Valid(item) && Has(t, i, ItemText(item)) && e == i + |ItemText(item)|
    ensures Leaves(t, i, e, if item.Token? then item.text else "")
  {
    match item
    case Token(p) => TokenStays(t, i, p, e);
    case Blank(c) => BlankGoes(t, i, c);
    case LineComment(body) => LineGoes(t, i, body, e);
    case BlockComment(body) => BlockGoes(t, i, body, e);
  }

  // ----- whole texts -----

  lemma {:induction false} ItemsMinify(t: string, i: nat, items: seq<Item>, e: nat)
    requires (forall k :: 0 <= k < |items| ==> Valid(items[k]))
    requires Has(t, i, Text(items)) && e == i + |Text(items)|
    ensures Leaves(t, i, e, TokenText(items))
    decreases items
  {
    if items == [] {
      NothingLeft(t, i);
    } else {
      var j := i + |ItemText(items[0])|;
      HasAppend(t, i, ItemText(items[0]), Text(items[1..]));
      ItemMinifies(t, i, items[0], j);
      ItemsMinify(t, j, items[1..], e);
      Together(t, i, j, e, if items[0].Token? then items[0].text else "", TokenText(items[1..]));
    }
  }

  /** Minifying leaves exactly the tokens, in order. */
  lemma {:induction false} TokensRemain(items: seq<Item>)
    requires forall k :: 0 <= k < |items| ==> Valid(items[k])
    ensures Minifiable(Text(items), 0) && Minify(Text(items), 0) == TokenText(items)
  {
    ItemsMinify(Text(items), 0, items, |Text(items)|);
    assert Minify(Text(items), |Text(items)|) == "";
    assert TokenText(items) + "" == TokenText(items);
  }

  lemma {:induction false} TokensAlone(items: seq<Item>)
    ensures Text(Tokens(items)) == TokenText(items) == TokenText(Tokens(items))
  {
    if items != [] {
      TokensAlone(items[1..]);
      if items[0].Token? {
        assert Tokens(items)[1..] == Tokens(items[1..]);
      } else {
        assert "" + TokenText(items[1..]) == TokenText(items[1..]);
      }
    }
  }

  /** Minifying the result again changes nothing. */
  lemma {:induction false} MinifyIsIdempotent(items: seq<Item>)
    requires forall k :: 0 <= k < |items| ==> Valid(items[k])
    ensures Minifiable(Text(items), 0) && Minifiable(Minify(Text(items), 0), 0)
    ensures Minify(Minify(Text(items), 0), 0) == Minify(Text(items), 0)
  {
    TokensRemain(items);
    TokensAlone(items);
    TokensRemain(Tokens(items));
  }

  /** The rest of such a comment is kept. */
  lemma {:induction false} SlashAfterOpening(t: string)
    requires t == "/*/x*/"
    ensures Minifiable(t, 0) && Minify(t, 0) == "x*/"
  {
    assert Minify(t, 6) == "";
    assert PieceAt(t, 5) == Keep(6) && t[5..6] == "/";
    assert Minify(t, 5) == "/" + "";
    assert PieceAt(t, 4) == Keep(5) && t[4..5] == "*";
    assert Minify(t, 4) == "*" + "/";
    assert PieceAt(t, 3) == Keep(4) && t[3..4] == "x" && Minifiable(t, 4);
    assert Minify(t, 3) == "x" + "*/";
    assert BlockEnd(t, 1) == 1;
    assert BlockEnd(t, 0) == 1;
    assert PieceAt(t, 0) == Drop(3);
  }
}
