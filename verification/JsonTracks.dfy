/**
 A text and its minified form read side by side: the positions that match, and
 what stands there.
 */
module JsonTracks {
  import opened JsonText
  import opened JsonParse
  import opened JsonMinify
  import opened JsonNumberEnds

  /** The scanner of the minifier, started at `from`, comes to `i`. */
  predicate Reaches(t: string, from: nat, i: nat)
    requires from <= |t|
    decreases |t| - from
  {
    || from == i
    || (At(t, from) != '\0' && !PieceAt(t, from).Open? && Reaches(t, PieceAt(t, from).next, i))
  }

  lemma {:induction false} ReachesNext(t: string, from: nat, i: nat)
    requires from <= |t| && Reaches(t, from, i) && i < |t| && t[i] != '\0' && !PieceAt(t, i).Open?
    ensures Reaches(t, from, PieceAt(t, i).next)
    decreases |t| - from
  {
    if from != i {
      ReachesNext(t, PieceAt(t, from).next, i);
    }
  }

  /** The scanner, started at `from` with `at` characters out, comes to `i` with `k`
      characters out. */
  predicate Pairs(t: string, from: nat, at: nat, i: nat, k: nat)
    requires from <= |t|
    decreases |t| - from
  {
    || (from == i && at == k)
    || (At(t, from) != '\0' &&
        match PieceAt(t, from)
        case Open => false
        case Drop(next) => Pairs(t, next, at, i, k)
        case Keep(next) => Pairs(t, next, at + (next - from), i, k))
  }

  /** `m` is the minified text, and what it has from `k` on is what it has of `t` from
      `i` on. */
  predicate Tracks(t: string, i: nat, m: string, k: nat) {
    i <= |t| && k <= |m| && Minifiable(t, 0) && m == Minify(t, 0) && Pairs(t, 0, 0, i, k)
  }

  lemma {:induction false} PairsRest(t: string, from: nat, at: nat, i: nat, k: nat, m: string)
    requires from <= |t| && Pairs(t, from, at, i, k) && i <= |t|
    requires Minifiable(t, from) && Has(m, at, Minify(t, from)) && |m| == at + |Minify(t, from)|
    ensures Reaches(t, from, i) && Minifiable(t, i) && Has(m, k, Minify(t, i)) && |m| == k + |Minify(t, i)|
    decreases |t| - from
  {
    if !(from == i && at == k) {
      match PieceAt(t, from)
      case Drop(next) => PairsRest(t, next, at, i, k, m);
      case Keep(next) =>
        HasAppend(m, at, t[from..next], Minify(t, next));
        PairsRest(t, next, at + (next - from), i, k, m);
    }
  }

  /** The minified text from there on. */
  lemma {:induction false} Tracked(t: string, i: nat, m: string, k: nat)
    requires Tracks(t, i, m, k)
    ensures Reaches(t, 0, i) && Minifiable(t, i) && Has(m, k, Minify(t, i)) && |m| == k + |Minify(t, i)|
  {
    PairsRest(t, 0, 0, i, k, m);
  }

  lemma {:induction false} PairsNext(t: string, from: nat, at: nat, i: nat, k: nat, j: nat, l: nat)
    requires from <= |t| && Pairs(t, from, at, i, k) && i < |t| && t[i] != '\0'
    requires PieceAt(t, i) == Drop(j) ==> l == k
    requires PieceAt(t, i) == Keep(j) ==> l == k + (j - i)
    requires PieceAt(t, i) == Drop(j) || PieceAt(t, i) == Keep(j)
    ensures Pairs(t, from, at, j, l)
    decreases |t| - from
  {
    if !(from == i && at == k) {
      match PieceAt(t, from)
      case Drop(next) => PairsNext(t, next, at, i, k, j, l);
      case Keep(next) => PairsNext(t, next, at + (next - from), i, k, j, l);
    }
  }

  lemma {:induction false} HasRepeats(t: string, i: nat, e: nat, m: string, k: nat)
    requires i <= e <= |t| && Has(m, k, t[i..e])
    ensures Repeats(t, i, e, m, k)
  {
    forall x | i <= x < e ensures t[x] == m[x - i + k] {
      HasAt(m, k, t[i..e], x - i);
    }
  }

  lemma {:induction false} RepeatsFrom(t: string, i: nat, e: nat, m: string, k: nat, i': nat)
    requires Repeats(t, i, e, m, k) && i <= i' <= e
    ensures Repeats(t, i', e, m, k + (i' - i))
  {
  }

  lemma {:induction false} RepeatsBack(t: string, i: nat, e: nat, m: string, k: nat)
    requires Repeats(t, i, e, m, k)
    ensures Repeats(m, k, k + (e - i), t, i)
  {
    forall x | k <= x < k + (e - i) ensures m[x] == t[x - k + i] {
      assert t[x - k + i] == m[x - k + i - i + k];
    }
  }

  /** How many characters the scanner, started at `from`, keeps before it comes to `x`. */
  function Kept(t: string, from: nat, x: nat): nat
    requires from <= |t|
    decreases |t| - from
  {
    if from >= x || At(t, from) == '\0' then 0
    else
      match PieceAt(t, from)
      case Open => 0
      case Drop(next) => Kept(t, next, x)
      case Keep(next) => next - from + Kept(t, next, x)
  }

  lemma {:induction false} PairsForward(t: string, from: nat, at: nat, i: nat, k: nat)
    requires from <= |t| && Pairs(t, from, at, i, k)
    ensures from <= i && k == at + Kept(t, from, i)
    decreases |t| - from
  {
    if !(from == i && at == k) {
      match PieceAt(t, from)
      case Drop(next) => PairsForward(t, next, at, i, k);
      case Keep(next) => PairsForward(t, next, at + (next - from), i, k);
    }
  }

  /** The matching place is behind the characters kept so far. */
  lemma {:induction false} PlaceOf(t: string, i: nat, m: string, k: nat)
    requires Tracks(t, i, m, k)
    ensures k == Kept(t, 0, i)
  {
    PairsForward(t, 0, 0, i, k);
  }

  // ----- single steps -----

  lemma {:induction false} TrackEnd(t: string, i: nat, m: string, k: nat)
    requires Tracks(t, i, m, k) && At(t, i) == '\0'
    ensures k == |m|
  {
    Tracked(t, i, m, k);
  }

  lemma {:induction false} TrackKeep(t: string, i: nat, m: string, k: nat, e: nat)
    requires Tracks(t, i, m, k) && At(t, i) != '\0' && PieceAt(t, i) == Keep(e)
    ensures Tracks(t, e, m, k + (e - i)) && Repeats(t, i, e, m, k)
  {
    Tracked(t, i, m, k);
    HasAppend(m, k, t[i..e], Minify(t, e));
    HasRepeats(t, i, e, m, k);
    PairsNext(t, 0, 0, i, k, e, k + (e - i));
  }

  lemma {:induction false} TrackBlank(t: string, i: nat, m: string, k: nat)
    requires Tracks(t, i, m, k) && IsBlank(At(t, i))
    ensures Tracks(t, i + 1, m, k)
  {
    PairsNext(t, 0, 0, i, k, i + 1, k);
  }

  predicate CommentAt(t: string, i: nat)
    requires i <= |t|
  {
    At(t, i) == '/' && (At(t, i + 1) == '/' || At(t, i + 1) == '*')
  }

  /** A character that is kept by itself. */
  lemma {:induction false} TrackKept(t: string, i: nat, m: string, k: nat)
    requires Tracks(t, i, m, k) && (IsPlain(At(t, i)) || (At(t, i) == '/' && !CommentAt(t, i)))
    ensures k < |m| && m[k] == t[i] && Tracks(t, i + 1, m, k + 1)
  {
    TrackKeep(t, i, m, k, i + 1);
    assert t[i] == m[i - i + k];
  }

  lemma {:induction false} LiteralIsClosed(t: string, i: nat)
    requires i <= |t| && Minifiable(t, i) && At(t, i) == '\"'
    ensures StringEnd(t, i + 1) < |t| && PieceAt(t, i) == Keep(StringEnd(t, i + 1) + 1)
  {
  }

  lemma {:induction false} TrackQuote(t: string, i: nat, m: string, k: nat)
    requires Tracks(t, i, m, k) && At(t, i) == '\"'
    ensures k < |m| && m[k] == '\"'
    ensures var e := StringEnd(t, i + 1) + 1; e <= |t| && Tracks(t, e, m, k + (e - i)) && Repeats(t, i, e, m, k)
  {
    Tracked(t, i, m, k);
    var e := StringEnd(t, i + 1) + 1;
    LiteralIsClosed(t, i);
    TrackKeep(t, i, m, k, e);
    SameAt(t, i, e, m, k, i);
  }

  /** What is neither blank nor a comment is the same in both. */
  lemma {:induction false} SameChar(t: string, i: nat, m: string, k: nat)
    requires Tracks(t, i, m, k) && !IsBlank(At(t, i)) && !CommentAt(t, i)
    ensures At(m, k) == At(t, i)
  {
    if At(t, i) == '\0' {
      TrackEnd(t, i, m, k);
    } else if At(t, i) == '\"' {
      TrackQuote(t, i, m, k);
    } else {
      TrackKept(t, i, m, k);
    }
  }

  /** Skipping white space stays in step, up to anything but a comment. */
  lemma {:induction false} TrackSkip(t: string, i: nat, m: string, k: nat)
    requires Tracks(t, i, m, k) && !CommentAt(t, Skip(t, i))
    ensures Tracks(t, Skip(t, i), m, Skip(m, k))
    ensures At(m, Skip(m, k)) == At(t, Skip(t, i))
    decreases |t| - i
  {
    if IsBlank(At(t, i)) {
      TrackBlank(t, i, m, k);
      TrackSkip(t, i + 1, m, k);
    } else if IsSpace(At(t, i)) {
      TrackKept(t, i, m, k);
      TrackSkip(t, i + 1, m, k + 1);
    } else {
      SameChar(t, i, m, k);
    }
  }

  /** Past white space and a mark such as a comma. */
  lemma {:induction false} TrackMark(t: string, i: nat, m: string, k: nat, j: nat) returns (j': nat)
    requires Tracks(t, i, m, k) && j == Skip(t, i) && IsPlain(At(t, j))
    ensures j < |t| && j' == Skip(m, k) < |m| && m[j'] == t[j] && Tracks(t, j + 1, m, j' + 1)
  {
    TrackSkip(t, i, m, k);
    j' := Skip(m, k);
    TrackKept(t, j, m, j');
  }

  lemma {:induction false} RepeatsOneMore(t: string, i: nat, e: nat, m: string, k: nat)
    requires i < e && Repeats(t, i + 1, e, m, k + 1) && k < |m| && m[k] == t[i]
    ensures Repeats(t, i, e, m, k)
  {
    forall x | i <= x < e ensures t[x] == m[x - i + k] {
      assert x > i ==> t[x] == m[x - (i + 1) + (k + 1)];
    }
  }

  lemma {:induction false} TrackPlains(t: string, i: nat, e: nat, m: string, k: nat)
    requires Tracks(t, i, m, k) && i <= e <= |t|
    requires forall x :: i <= x < e ==> IsPlain(t[x])
    ensures Tracks(t, e, m, k + (e - i)) && Repeats(t, i, e, m, k)
    decreases e - i
  {
    if i < e {
      TrackKept(t, i, m, k);
      TrackPlains(t, i + 1, e, m, k + 1);
      RepeatsOneMore(t, i, e, m, k);
    }
  }

  lemma {:induction false} KeptIs(t: string, i: nat, m: string, k: nat, x: nat)
    requires Tracks(t, i, m, k)
    ensures Minifiable(t, i) && KeptAt(Minify(t, i), x) == KeptAt(m, k + x)
  {
    Tracked(t, i, m, k);
    if x < |Minify(t, i)| {
      HasAt(m, k, Minify(t, i), x);
    }
  }

  // ----- strings: all that is read lies before the closing quote -----

  function Moved(e: Escaped, i: nat, k: nat): Escaped
    requires e.Emit? ==> i <= e.next
  {
    match e
    case Bad => Bad
    case Emit(s, next) => Emit(s, next - i + k)
  }

  lemma {:induction false} SameHex(t: string, i: nat, e: nat, m: string, k: nat)
    requires Repeats(t, i, e, m, k) && i + 4 <= e
    ensures FourHex(t, i) <==> FourHex(m, k)
    ensures FourHex(t, i) ==> Hex4(t, i) == Hex4(m, k)
  {
    assert t[i] == m[k] && t[i + 1] == m[k + 1] && t[i + 2] == m[k + 2] && t[i + 3] == m[k + 3];
  }

  lemma {:induction false} HexStays(t: string, i: nat, q: nat)
    requires FourHex(t, i) && StringEnd(t, i) == q < |t|
    ensures i + 4 <= q && StringEnd(t, i + 4) == q
  {
    assert StringEnd(t, i) == StringEnd(t, i + 1) == StringEnd(t, i + 2);
    assert StringEnd(t, i + 2) == StringEnd(t, i + 3) == StringEnd(t, i + 4);
  }

  /** A string that ends at `q` continues after each escape inside it. */
  lemma {:induction false} EscapeStays(t: string, i: nat, q: nat)
    requires i < q < |t| && t[i] == '\\' && StringEnd(t, i) == q && EscapeAt(t, i).Emit?
    ensures EscapeAt(t, i).next <= q && StringEnd(t, EscapeAt(t, i).next) == q
    ensures t[i + 1] == 'u' ==> FourHex(t, i + 2) && i + 6 <= q && StringEnd(t, i + 6) == q
    ensures t[i + 1] == 'u' && t[i + 6] == '\\' ==> i + 7 < q && (t[i + 7] == 'u' && FourHex(t, i + 8) ==> i + 12 <= q)
  {
    if t[i + 1] == 'u' {
      HexStays(t, i + 2, q);
      if t[i + 6] == '\\' {
        assert i + 6 < q;
        if t[i + 7] == 'u' && FourHex(t, i + 8) {
          HexStays(t, i + 8, q);
        }
      }
    }
  }

  lemma {:induction false} SameUnicodeEscape(t: string, i: nat, q: nat, m: string, k: nat)
    requires Repeats(t, i, q + 1, m, k) && k + 2 <= |m| && m[k] == '\\' && m[k + 1] == 'u'
    requires i + 6 <= q < |t| && t[i] == '\\' && t[i + 1] == 'u' && FourHex(t, i + 2)
    requires t[i + 6] == '\\' ==> i + 7 < q && (t[i + 7] == 'u' && FourHex(t, i + 8) ==> i + 12 <= q)
    requires UnicodeEscape(t, i).Emit?
    ensures UnicodeEscape(m, k) == Moved(UnicodeEscape(t, i), i, k)
  {
    RepeatsFrom(t, i, q + 1, m, k, i + 2);
    SameHex(t, i + 2, q + 1, m, k + 2);
    assert t[i + 6] == m[i + 6 - i + k];
    if t[i + 6] == '\\' {
      assert t[i + 7] == m[i + 7 - i + k];
      if t[i + 7] == 'u' && FourHex(t, i + 8) {
        RepeatsFrom(t, i, q + 1, m, k, i + 8);
        SameHex(t, i + 8, q + 1, m, k + 8);
      }
    }
  }

  lemma {:induction false} SameEscape(t: string, i: nat, q: nat, m: string, k: nat)
    requires Repeats(t, i, q + 1, m, k)
    requires i < q < |t| && t[i] == '\\' && StringEnd(t, i) == q && EscapeAt(t, i).Emit?
    ensures k < |m| && m[k] == '\\'
    ensures EscapeAt(m, k) == Moved(EscapeAt(t, i), i, k)
  {
    EscapeStays(t, i, q);
    assert t[i] == m[i - i + k] && t[i + 1] == m[i + 1 - i + k];
    if t[i + 1] == 'u' {
      SameUnicodeEscape(t, i, q, m, k);
    }
  }

  lemma {:induction false} UnescapePlain(m: string, k: nat, s: string, e: nat)
    requires k < |m| && !EndsString(m[k]) && m[k] != '\\' && Unescape(m, k + 1) == Text(s, e)
    ensures Unescape(m, k) == Text([m[k]] + s, e)
  {
  }

  lemma {:induction false} UnescapeEscape(m: string, k: nat, x: string, next: nat, s: string, e: nat)
    requires k < |m| && m[k] == '\\' && EscapeAt(m, k) == Emit(x, next) && Unescape(m, next) == Text(s, e)
    ensures Unescape(m, k) == Text(x + s, e)
  {
  }

  lemma {:induction false} SameUnescape(t: string, i: nat, q: nat, m: string, k: nat, s: string, e: nat)
    requires Repeats(t, i, q + 1, m, k) && StringEnd(t, i) == q < |t|
    requires Unescape(t, i) == Text(s, e)
    ensures e == q && Unescape(m, k) == Text(s, k + (q - i))
    decreases q - i
  {
    assert t[i] == m[i - i + k];
    if t[i] != '\"' {
      if t[i] != '\\' {
        var rest := Unescape(t, i + 1);
        RepeatsFrom(t, i, q + 1, m, k, i + 1);
        SameUnescape(t, i + 1, q, m, k + 1, rest.text, rest.end);
        UnescapePlain(m, k, rest.text, k + (q - i));
      } else {
        SameAfterEscape(t, i, q, m, k, s, e);
      }
    }
  }

  lemma {:induction false} SameAfterEscape(t: string, i: nat, q: nat, m: string, k: nat, s: string, e: nat)
    requires Repeats(t, i, q + 1, m, k) && StringEnd(t, i) == q < |t|
    requires i < q && t[i] == '\\' && Unescape(t, i) == Text(s, e)
    ensures e == q && Unescape(m, k) == Text(s, k + (q - i))
    decreases q - i, 0
  {
    EscapeStays(t, i, q);
    SameEscape(t, i, q, m, k);
    var x, next := EscapeAt(t, i).text, EscapeAt(t, i).next;
    var rest := Unescape(t, next);
    RepeatsFrom(t, i, q + 1, m, k, next);
    SameUnescape(t, next, q, m, k + (next - i), rest.text, rest.end);
    UnescapeEscape(m, k, x, next - i + k, rest.text, k + (q - i));
  }

  lemma {:induction false} QuotedText(t: string, i: nat, s: string, q: nat)
    requires i < |t| && t[i] == '\"' && Unescape(t, i + 1) == Text(s, q) && q < |t| && t[q] == '\"'
    ensures ParseString(t, i) == Text(s, q + 1)
  {
  }

  lemma {:induction false} TextInQuotes(t: string, i: nat, s: string, e: nat)
    requires i < |t| && ParseString(t, i) == Text(s, e)
    ensures t[i] == '\"' && Unescape(t, i + 1).Text? && Unescape(t, i + 1).text == s
    ensures e == if At(t, Unescape(t, i + 1).end) == '\"' then Unescape(t, i + 1).end + 1 else Unescape(t, i + 1).end
  {
  }

  lemma {:induction false} SameString(t: string, i: nat, q: nat, m: string, k: nat, s: string, e: nat)
    requires i < |t| && ParseString(t, i) == Text(s, e) && StringEnd(t, i + 1) == q < |t|
    requires Repeats(t, i, q + 1, m, k)
    ensures e == q + 1 && ParseString(m, k) == Text(s, k + (e - i))
  {
    TextInQuotes(t, i, s, e);
    RepeatsFrom(t, i, q + 1, m, k, i + 1);
    SameUnescape(t, i + 1, q, m, k + 1, s, Unescape(t, i + 1).end);
    assert t[i] == m[i - i + k] && t[q] == m[q - i + k];
    QuotedText(m, k, s, k + (q - i));
  }

  lemma {:induction false} SameStringEnd(t: string, i: nat, q: nat, m: string, k: nat)
    requires Repeats(t, i, q + 1, m, k) && StringEnd(t, i) == q < |t|
    ensures StringEnd(m, k) == k + (q - i) < |m|
    decreases q - i
  {
    assert t[i] == m[i - i + k];
    if t[i] == '\\' {
      assert t[i + 1] == m[i + 1 - i + k];
      RepeatsFrom(t, i, q + 1, m, k, i + 2);
      SameStringEnd(t, i + 2, q, m, k + 2);
    } else if t[i] != '\"' {
      RepeatsFrom(t, i, q + 1, m, k, i + 1);
      SameStringEnd(t, i + 1, q, m, k + 1);
    }
  }

  /** A copy of a literal that can be read can be read itself. */
  lemma {:induction false} TextBack(t: string, i: nat, q: nat, m: string, k: nat)
    requires i < |t| && t[i] == '\"' && StringEnd(t, i + 1) == q < |t| && Repeats(t, i, q + 1, m, k)
    requires k < |m| && ParseString(m, k).Text?
    ensures ParseString(t, i).Text?
  {
    RepeatsFrom(t, i, q + 1, m, k, i + 1);
    SameStringEnd(t, i + 1, q, m, k + 1);
    RepeatsBack(t, i, q + 1, m, k);
    SameString(m, k, k + (q - i), t, i, ParseString(m, k).text, ParseString(m, k).end);
  }

  /** A literal and its copy are read alike, a bad escape in them included. */
  lemma {:induction false} SameLiteral(t: string, i: nat, q: nat, m: string, k: nat)
    requires i < |t| && t[i] == '\"' && StringEnd(t, i + 1) == q < |t| && Repeats(t, i, q + 1, m, k)
    ensures k < |m| && m[k] == '\"' && !ParseString(t, i).NoText? && !ParseString(m, k).NoText?
    ensures ParseString(t, i).Text? <==> ParseString(m, k).Text?
    ensures ParseString(t, i).Text? ==>
              ParseString(t, i).end == q + 1 && ParseString(m, k) == Text(ParseString(t, i).text, k + (q + 1 - i))
  {
    assert t[i] == m[i - i + k];
    var r := ParseString(t, i);
    if r.Text? {
      SameString(t, i, q, m, k, r.text, r.end);
    } else if ParseString(m, k).Text? {
      TextBack(t, i, q, m, k);
    }
  }

  lemma {:induction false} LiteralTracked(t: string, i: nat, m: string, k: nat, q: nat)
    requires Tracks(t, i, m, k) && At(t, i) == '\"' && q == StringEnd(t, i + 1)
    ensures q < |t| && i < |t| && t[i] == '\"' && Repeats(t, i, q + 1, m, k) && Tracks(t, q + 1, m, k + (q + 1 - i))
  {
    TrackQuote(t, i, m, k);
  }

  /** A string literal is read alike in both, and both go on behind it. */
  lemma {:induction false} TrackString(t: string, i: nat, m: string, k: nat) returns (y: nat)
    requires Tracks(t, i, m, k) && At(t, i) == '\"'
    ensures k < |m| && m[k] == '\"' && !ParseString(t, i).NoText? && !ParseString(m, k).NoText?
    ensures ParseString(t, i).Text? <==> ParseString(m, k).Text?
    ensures ParseString(t, i).Text? ==>
              ParseString(m, k) == Text(ParseString(t, i).text, y) && Tracks(t, ParseString(t, i).end, m, y)
  {
    var q := StringEnd(t, i + 1);
    y := k + (q + 1 - i);
    LiteralTracked(t, i, m, k, q);
    SameLiteral(t, i, q, m, k);
  }
}
