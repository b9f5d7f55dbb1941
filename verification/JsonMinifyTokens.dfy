/**
 Numbers, keywords and strings in a text and in its minified form: where a token
 is read differently, and the texts in which none is.
 */
module JsonMinifyTokens {
  import opened JsonText
  import opened JsonParse
  import opened JsonMinify
  import opened JsonNumberEnds
  import opened JsonTracks

  // ----- where minifying changes a token -----

  /** A keyword stands at `i`. */
  predicate WordAt(t: string, i: nat)
    requires i <= |t|
  {
    Starts(t, i, "null") || Starts(t, i, "false") || Starts(t, i, "true")
  }

  predicate NumberGrows(t: string, p: nat)
    requires NumberStarts(t, p) && Minifiable(t, p)
  {
    var n := NumberEnd(t, p) - p;
    Continues(t, p, KeptAt(Minify(t, p), n), KeptAt(Minify(t, p), n + 1))
  }

  /** The number at `p` is longer, or a keyword comes to stand at `p`, when the white
      space behind it is gone. */
  predicate Changes(t: string, p: nat) {
    && p <= |t| && Minifiable(t, p)
    && if NumberStarts(t, p) then NumberGrows(t, p) else !WordAt(t, p) && WordAt(Minify(t, p), 0)
  }

  // ----- the value a rejection comes from -----

  /** The value the parser looked at last, where a text is rejected in it or behind it. */
  datatype Looked = Elsewhere | Value(start: nat)

  function ValueSeen(t: string, i: nat): Looked
    requires i <= |t|
    decreases |t| - i, 2
  {
    if At(t, i) == '[' then ItemsSeen(t, Skip(t, i + 1))
    else if At(t, i) == '{' then MembersSeen(t, Skip(t, i + 1))
    else Value(i)
  }

  function ItemsSeen(t: string, i: nat): Looked
    requires i <= |t|
    decreases |t| - i, 3
  {
    match ParseValue(t, i)
    case Parsed(_, e) =>
      var j := Skip(t, e);
      if At(t, j) == ',' then MoreItemsSeen(t, j + 1) else Value(i)
    case _ => ValueSeen(t, i)
  }

  function MoreItemsSeen(t: string, i: nat): Looked
    requires i <= |t|
    decreases |t| - i, 5
  {
    ItemsSeen(t, Skip(t, i))
  }

  /** Where the value of a member starts. */
  function MemberValue(t: string, i: nat): (p: nat)
    requires i <= |t|
    ensures i <= p <= |t|
    ensures ParseString(t, i).Text? && At(t, Skip(t, ParseString(t, i).end)) == ':' ==> i < p
  {
    match ParseString(t, i)
    case Text(_, e) => if At(t, Skip(t, e)) == ':' then Skip(t, Skip(t, e) + 1) else i
    case _ => i
  }

  function MembersSeen(t: string, i: nat): Looked
    requires i <= |t|
    decreases |t| - i, 4
  {
    match ParseMember(t, i)
    case OneMember(_, e) =>
      var j := Skip(t, e);
      if At(t, j) == ',' then MoreMembersSeen(t, j + 1) else Value(MemberValue(t, i))
    case NoMember(_) => MemberSeen(t, i)
  }

  function MoreMembersSeen(t: string, i: nat): Looked
    requires i <= |t|
    decreases |t| - i, 5
  {
    MembersSeen(t, Skip(t, i))
  }

  function MemberSeen(t: string, i: nat): Looked
    requires i <= |t|
    decreases |t| - i, 3
  {
    match ParseString(t, i)
    case Text(_, e) => if At(t, Skip(t, e)) == ':' then ValueSeen(t, MemberValue(t, i)) else Elsewhere
    case _ => Elsewhere
  }

  // ----- how two outcomes compare -----

  /** Everything read lies behind `y`. */
  predicate Beyond(r: Outcome, y: nat) {
    (r.Parsed? ==> r.end > y) && (r.Rejected? ==> r.at > y)
  }

  /** `r` for the text and `r'` for its minified form: the same at the matching place
      `y`, or, where a token changes, past it.  A rejection at a comment says nothing. */
  ghost predicate Same(t: string, r: Outcome, m: string, r': Outcome, y: nat, changes: bool) {
    match r
    case Parsed(v, e) => Tracks(t, e, m, y) && if changes then Beyond(r', y) else r' == Parsed(v, y)
    case Rejected(at) =>
      && at <= |t| && Reaches(t, 0, at)
      && (CommentAt(t, at) || (Tracks(t, at, m, y) && if changes then Beyond(r', y) else r' == Rejected(y)))
    case Unmodelled => r' == Unmodelled
  }

  predicate SeenChanges(t: string, seen: Looked) {
    seen.Value? && Changes(t, seen.start)
  }

  predicate ValueChanges(t: string, i: nat)
    requires i <= |t|
  {
    match ParseValue(t, i)
    case Parsed(_, _) => NumberStarts(t, i) && Changes(t, i)
    case Rejected(_) => SeenChanges(t, ValueSeen(t, i))
    case Unmodelled => false
  }

  predicate ItemsChange(t: string, i: nat, r: Outcome)
    requires i <= |t|
  {
    r.Rejected? && SeenChanges(t, ItemsSeen(t, i))
  }

  predicate MembersChange(t: string, i: nat, r: Outcome)
    requires i <= |t|
  {
    r.Rejected? && SeenChanges(t, MembersSeen(t, i))
  }

  // ----- texts in which no token changes -----

  predicate NumberChar(c: char) {
    IsDigit(c) || c == '-' || c == '+' || c == '.' || c == 'e' || c == 'E'
  }

  /** The characters of numbers and keywords. */
  predicate WordChar(c: char) {
    || NumberChar(c) || c == 'n' || c == 'u' || c == 'l' || c == 'f' || c == 'a' || c == 's' || c == 't' || c == 'r'
  }

  function AfterBlanks(t: string, i: nat): (j: nat)
    requires i <= |t|
    ensures i <= j <= |t| && !IsBlank(At(t, j))
    decreases |t| - i
  {
    if IsBlank(At(t, i)) then AfterBlanks(t, i + 1) else i
  }

  /** Nothing but blanks stands between this character and another, and both are
      characters of numbers or keywords. */
  predicate Joins(t: string, x: nat)
    requires x < |t|
  {
    WordChar(t[x]) && IsBlank(At(t, x + 1)) && WordChar(At(t, AfterBlanks(t, x + 1)))
  }

  /** From `i` on there is no comment, and every run of blanks outside strings has
      something on one side that is no character of a number or keyword. */
  predicate Parted(t: string, i: nat)
    requires i <= |t|
    decreases |t| - i
  {
    || At(t, i) == '\0'
    || (!CommentAt(t, i) && !Joins(t, i) && (PieceAt(t, i).Open? || Parted(t, PieceAt(t, i).next)))
  }

  lemma {:induction false} PartedFrom(t: string, from: nat, i: nat)
    requires from <= |t| && Parted(t, from) && Reaches(t, from, i) && i <= |t|
    ensures Parted(t, i)
    decreases |t| - from
  {
    if from != i {
      PartedFrom(t, PieceAt(t, from).next, i);
    }
  }

  // ----- numbers -----

  lemma {:induction false} NumberIsNumberChars(t: string, i: nat)
    requires i <= |t|
    ensures forall x :: i <= x < NumberEnd(t, i) ==> NumberChar(t[x])
  {
    var a, b := IntegerStart(t, i), IntegerEnd(t, i);
    var c := FractionEnd(t, b);
    RunIsDigits(t, a);
    if HasFraction(t, b) {
      RunIsDigits(t, b + 1);
    }
    if HasExponent(t, c) {
      RunIsDigits(t, ExponentStart(t, c));
    }
  }

  /** What continues a number is a character of numbers. */
  lemma {:induction false} ContinuesWith(t: string, i: nat, c: char, d: char)
    requires NumberStarts(t, i) && Continues(t, i, c, d)
    ensures NumberChar(c) && (c == '.' ==> IsDigit(d))
  {
  }

  /** The characters that make a number longer are those behind its copy. */
  lemma {:induction false} GrowsWith(t: string, i: nat, m: string, k: nat, y: nat)
    requires Tracks(t, i, m, k) && NumberStarts(t, i) && y == k + (NumberEnd(t, i) - i)
    ensures Changes(t, i) == Continues(t, i, KeptAt(m, y), KeptAt(m, y + 1))
  {
    var n := NumberEnd(t, i) - i;
    KeptIs(t, i, m, k, n);
    KeptIs(t, i, m, k, n + 1);
  }

  /** A number's characters are kept. */
  lemma {:induction false} NumberIsCopied(t: string, i: nat, m: string, k: nat)
    requires Tracks(t, i, m, k) && NumberStarts(t, i)
    ensures Tracks(t, NumberEnd(t, i), m, k + (NumberEnd(t, i) - i)) && Repeats(t, i, NumberEnd(t, i), m, k)
    ensures NumberStarts(m, k)
  {
    var e := NumberEnd(t, i);
    NumberIsNumberChars(t, i);
    TrackPlains(t, i, e, m, k);
    SameAt(t, i, e, m, k, i);
  }

  /** A number is longer in the minified text if the characters kept behind it
      continue it, and otherwise the same. */
  lemma {:induction false} TrackNumber(t: string, i: nat, m: string, k: nat) returns (y: nat)
    requires Tracks(t, i, m, k) && NumberStarts(t, i)
    ensures Tracks(t, NumberEnd(t, i), m, y) && NumberStarts(m, k) && k < y == k + (NumberEnd(t, i) - i)
    ensures Changes(t, i) ==> NumberEnd(m, k) > y && NumberChar(At(m, y))
    ensures !Changes(t, i) ==> NumberEnd(m, k) == y && NumberValue(m, k) == NumberValue(t, i)
  {
    var e := NumberEnd(t, i);
    y := k + (e - i);
    NumberIsCopied(t, i, m, k);
    GrowsWith(t, i, m, k, y);
    NumberContinues(t, i, e, m, k);
    if Changes(t, i) {
      ContinuesWith(t, i, KeptAt(m, y), KeptAt(m, y + 1));
    }
  }

  /** Where the next token is a comma, a closing bracket or the end. */
  predicate Follows(c: char) {
    c == ',' || c == ']' || c == '}' || c == '\0'
  }

  lemma {:induction false} FollowedDoesNotChange(t: string, i: nat, m: string, k: nat)
    requires Tracks(t, i, m, k) && NumberStarts(t, i) && Follows(At(t, Skip(t, NumberEnd(t, i))))
    ensures !Changes(t, i)
  {
    var y := TrackNumber(t, i, m, k);
    TrackSkip(t, NumberEnd(t, i), m, y);
  }

  // ----- keywords -----

  lemma {:induction false} TrackKeyword(t: string, i: nat, m: string, k: nat, p: string)
    requires Tracks(t, i, m, k) && Starts(t, i, p)
    requires forall x :: 0 <= x < |p| ==> IsPlain(p[x])
    ensures Starts(m, k, p) && i + |p| <= |t| && Tracks(t, i + |p|, m, k + |p|)
    decreases p
  {
    if p != [] {
      TrackKept(t, i, m, k);
      TrackKeyword(t, i + 1, m, k + 1, p[1..]);
    }
  }

  lemma {:induction false} KeptStarts(t: string, i: nat, m: string, k: nat, p: string)
    requires Tracks(t, i, m, k)
    ensures Minifiable(t, i) && (Starts(m, k, p) <==> Starts(Minify(t, i), 0, p))
  {
    Tracked(t, i, m, k);
    var rest := Minify(t, i);
    StartsHas(m, k, p);
    StartsHas(rest, 0, p);
    if Has(m, k, p) {
      forall x | 0 <= x < |p| ensures p[x] == rest[0 + x] {
        HasAt(m, k, p, x);
        HasAt(m, k, rest, x);
      }
    }
    if Has(rest, 0, p) {
      forall x | 0 <= x < |p| ensures p[x] == m[k + x] {
        HasAt(rest, 0, p, x);
        HasAt(m, k, rest, x);
      }
    }
  }

  lemma {:induction false} KeptWord(t: string, i: nat, m: string, k: nat)
    requires Tracks(t, i, m, k)
    ensures Minifiable(t, i) && (WordAt(m, k) <==> WordAt(Minify(t, i), 0))
  {
    KeptStarts(t, i, m, k, "null");
    KeptStarts(t, i, m, k, "false");
    KeptStarts(t, i, m, k, "true");
  }

  /** What the parser makes of a keyword. */
  function Word(t: string, i: nat): Outcome
    requires i <= |t|
  {
    if Starts(t, i, "null") then Parsed(Null, i + 4)
    else if Starts(t, i, "false") then Parsed(False, i + 5)
    else if Starts(t, i, "true") then Parsed(True, i + 4)
    else Rejected(i)
  }

  predicate WordLetter(c: char) {
    c == 'n' || c == 'f' || c == 't'
  }

  lemma {:induction false} ReadWord(t: string, i: nat)
    requires i <= |t| && WordLetter(At(t, i))
    ensures ParseValue(t, i) == Word(t, i) && ValueSeen(t, i) == Value(i)
  {
  }

  /** A keyword that stands there. */
  lemma {:induction false} SameKeyword(t: string, i: nat, m: string, k: nat) returns (y: nat)
    requires Tracks(t, i, m, k) && WordAt(t, i)
    ensures Word(t, i).Parsed? && Tracks(t, Word(t, i).end, m, y) && Word(m, k) == Parsed(Word(t, i).value, y)
  {
    if Starts(t, i, "null") {
      TrackKeyword(t, i, m, k, "null");
      y := k + 4;
    } else if Starts(t, i, "false") {
      TrackKeyword(t, i, m, k, "false");
      y := k + 5;
    } else {
      TrackKeyword(t, i, m, k, "true");
      y := k + 4;
    }
  }

  lemma {:induction false} SameWord(t: string, i: nat, m: string, k: nat) returns (y: nat)
    requires Tracks(t, i, m, k) && WordLetter(At(t, i))
    ensures Same(t, Word(t, i), m, Word(m, k), y, Changes(t, i))
    ensures At(m, k) == At(t, i)
  {
    SameChar(t, i, m, k);
    KeptWord(t, i, m, k);
    Tracked(t, i, m, k);
    y := k;
    if WordAt(t, i) {
      y := SameKeyword(t, i, m, k);
    }
  }

  // ----- values without parts -----

  lemma {:induction false} ReadNumber(t: string, i: nat)
    requires NumberStarts(t, i)
    ensures ParseValue(t, i) == Parsed(Number(NumberValue(t, i)), NumberEnd(t, i))
  {
  }

  lemma {:induction false} ReadString(t: string, i: nat)
    requires i < |t| && t[i] == '\"' && !ParseString(t, i).NoText?
    ensures ParseValue(t, i) ==
            if ParseString(t, i).Text? then Parsed(String(ParseString(t, i).text), ParseString(t, i).end)
            else Unmodelled
  {
  }

  /** The first character of anything but a value. */
  predicate StartsNothing(c: char) {
    !WordLetter(c) && c != '\"' && c != '-' && !IsDigit(c) && c != '[' && c != '{'
  }

  lemma {:induction false} ReadNothing(t: string, i: nat)
    requires i <= |t| && StartsNothing(At(t, i))
    ensures ParseValue(t, i) == Rejected(i) && ValueSeen(t, i) == Value(i)
  {
  }

  lemma {:induction false} NothingDoesNotChange(t: string, i: nat, m: string, k: nat)
    requires Tracks(t, i, m, k) && StartsNothing(At(t, i)) && !IsBlank(At(t, i)) && !CommentAt(t, i)
    ensures At(m, k) == At(t, i) && !Changes(t, i)
  {
    SameChar(t, i, m, k);
    KeptWord(t, i, m, k);
  }

  lemma {:induction false} SameScalar(t: string, i: nat, m: string, k: nat) returns (y: nat)
    requires Tracks(t, i, m, k) && !IsBlank(At(t, i)) && At(t, i) != '[' && At(t, i) != '{'
    ensures Same(t, ParseValue(t, i), m, ParseValue(m, k), y, ValueChanges(t, i))
    ensures ParseValue(t, i).Parsed? && ValueChanges(t, i) ==> !IsSpace(At(m, y))
  {
    var c := At(t, i);
    if c == '-' || IsDigit(c) {
      y := TrackNumber(t, i, m, k);
      ReadNumber(t, i);
      ReadNumber(m, k);
    } else if c == '\"' {
      y := TrackString(t, i, m, k);
      ReadString(t, i);
      ReadString(m, k);
    } else if WordLetter(c) {
      y := SameWord(t, i, m, k);
      ReadWord(t, i);
      ReadWord(m, k);
    } else {
      y := k;
      ReadNothing(t, i);
      Tracked(t, i, m, k);
      if !CommentAt(t, i) {
        NothingDoesNotChange(t, i, m, k);
        ReadNothing(m, k);
      }
    }
  }

  // ----- parted texts -----

  /** The next character kept. */
  lemma {:induction false} TrackBlanks(t: string, i: nat, m: string, k: nat)
    requires Tracks(t, i, m, k) && Parted(t, 0)
    ensures Tracks(t, AfterBlanks(t, i), m, k) && At(m, k) == At(t, AfterBlanks(t, i))
    decreases |t| - i
  {
    if IsBlank(At(t, i)) {
      TrackBlank(t, i, m, k);
      TrackBlanks(t, i + 1, m, k);
    } else {
      Tracked(t, i, m, k);
      PartedFrom(t, 0, i);
      SameChar(t, i, m, k);
    }
  }

  /** Behind a character of a word stands the same in both, or no such character in
      the minified text. */
  lemma {:induction false} AfterWordChar(t: string, x: nat, m: string, k: nat)
    requires Tracks(t, x, m, k) && Parted(t, 0) && WordChar(At(t, x))
    ensures Tracks(t, x + 1, m, k + 1)
    ensures At(m, k + 1) == At(t, x + 1) || !WordChar(At(m, k + 1))
    ensures IsBlank(At(t, x + 1)) ==> !WordChar(At(m, k + 1))
  {
    TrackKept(t, x, m, k);
    Tracked(t, x, m, k);
    PartedFrom(t, 0, x);
    TrackBlanks(t, x + 1, m, k + 1);
  }

  lemma {:induction false} PartedStarts(t: string, i: nat, m: string, k: nat, p: string)
    requires Tracks(t, i, m, k) && Parted(t, 0) && Starts(m, k, p)
    requires forall x :: 0 <= x < |p| ==> WordChar(p[x])
    requires p != [] ==> At(m, k) == At(t, i)
    ensures Starts(t, i, p)
    decreases p
  {
    if p != [] {
      AfterWordChar(t, i, m, k);
      PartedStarts(t, i + 1, m, k + 1, p[1..]);
    }
  }

  lemma {:induction false} ContinuesAlike(t: string, i: nat, c: char, d: char, d': char)
    requires NumberStarts(t, i) && (c == '.' ==> d == d')
    ensures Continues(t, i, c, d) == Continues(t, i, c, d')
  {
  }

  /** A number is not continued by what stands behind it. */
  lemma {:induction false} EndsWhereItEnds(t: string, i: nat, c: char, d: char)
    requires NumberStarts(t, i) && c == At(t, NumberEnd(t, i)) && NumberEnd(t, i) < |t|
    requires c == '.' ==> d == At(t, NumberEnd(t, i) + 1)
    ensures !Continues(t, i, c, d)
  {
    NumberContinues(t, i, NumberEnd(t, i), t, i);
    ContinuesAlike(t, i, c, d, At(t, NumberEnd(t, i) + 1));
  }

  /** What is kept behind a number and would continue it stands directly behind it. */
  lemma {:induction false} PartedBehind(t: string, i: nat, e: nat, m: string, k: nat, y: nat)
    requires Tracks(t, i, m, k) && Parted(t, 0) && i < e <= |t| && y == k + (e - i)
    requires forall x :: i <= x < e ==> NumberChar(t[x])
    requires NumberChar(KeptAt(m, y)) && (m[y] == '.' ==> IsDigit(KeptAt(m, y + 1)))
    ensures e < |t| && m[y] == t[e]
    ensures m[y] == '.' ==> KeptAt(m, y + 1) == At(t, e + 1)
  {
    TrackPlains(t, i, e - 1, m, k);
    AfterWordChar(t, e - 1, m, y - 1);
    if m[y] == '.' {
      AfterWordChar(t, e, m, y);
    }
  }

  lemma {:induction false} PartedNumber(t: string, i: nat, m: string, k: nat)
    requires Tracks(t, i, m, k) && Parted(t, 0) && NumberStarts(t, i)
    ensures !Changes(t, i)
  {
    var e := NumberEnd(t, i);
    var y := k + (e - i);
    var c, d := KeptAt(m, y), KeptAt(m, y + 1);
    GrowsWith(t, i, m, k, y);
    if Continues(t, i, c, d) {
      ContinuesWith(t, i, c, d);
      NumberIsNumberChars(t, i);
      PartedBehind(t, i, e, m, k, y);
      EndsWhereItEnds(t, i, c, d);
    }
  }

  /** In a parted text no token changes. */
  lemma {:induction false} PartedDoesNotChange(t: string, i: nat, m: string, k: nat)
    requires Tracks(t, i, m, k) && Parted(t, 0) && !IsBlank(At(t, i))
    ensures !Changes(t, i)
  {
    Tracked(t, i, m, k);
    PartedFrom(t, 0, i);
    if NumberStarts(t, i) {
      PartedNumber(t, i, m, k);
    } else if WordAt(Minify(t, i), 0) {
      SameChar(t, i, m, k);
      KeptWord(t, i, m, k);
      if Starts(m, k, "null") {
        PartedStarts(t, i, m, k, "null");
      } else if Starts(m, k, "false") {
        PartedStarts(t, i, m, k, "false");
      } else {
        PartedStarts(t, i, m, k, "true");
      }
    }
  }
}
