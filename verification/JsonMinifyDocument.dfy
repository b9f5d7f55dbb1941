/**
 A whole text parsed before and after minifying: the same outcome at the matching
 place, exactly if the value looked at last is none that white space had cut short.
 */
module JsonMinifyDocument {
  import opened JsonText
  import opened JsonPrint
  import opened JsonParse
  import opened JsonRoundTrip
  import opened JsonMinify
  import opened JsonNumberEnds
  import opened JsonTracks
  import opened JsonMinifyTokens
  import opened JsonMinifyParse

  /** The value the parser looked at last: the whole one if that was read. */
  function DocumentSeen(t: string): Looked {
    if ParseValue(t, Skip(t, 0)).Parsed? then Value(Skip(t, 0)) else ValueSeen(t, Skip(t, 0))
  }

  /** That value is a number which minifying makes longer, or becomes a keyword.  In
      a text that parses only a number at the top can. */
  predicate DocumentChanges(t: string, whole: bool) {
    match ParseDocument(t, whole)
    case Parsed(_, _) => NumberStarts(t, Skip(t, 0)) && Changes(t, Skip(t, 0))
    case Rejected(_) => SeenChanges(t, DocumentSeen(t))
    case Unmodelled => false
  }

  // ----- behind the value -----

  lemma {:induction false} DocumentBeyond(m: string, one: Outcome, whole: bool, y: nat)
    requires (one.Parsed? ==> one.end <= |m|) && Beyond(one, y)
    ensures Beyond(AfterValue(m, one, whole), y)
  {
  }

  /** A value with nothing but white space behind it does not change. */
  lemma {:induction false} LastDoesNotChange(t: string, i: nat, m: string, k: nat, e: nat)
    requires Tracks(t, i, m, k) && ParseValue(t, i).Parsed? && ParseValue(t, i).end == e && At(t, Skip(t, e)) == '\0'
    ensures !ValueChanges(t, i)
  {
    FollowedValue(t, i, m, k, e);
  }

  lemma {:induction false} SameRest(t: string, e: nat, m: string, x: nat, v: Json, one': Outcome, changes: bool)
    returns (y: nat)
    requires Same(t, Parsed(v, e), m, one', x, changes) && e <= |t| && (one'.Parsed? ==> one'.end <= |m|)
    requires changes ==> At(t, Skip(t, e)) != '\0' && !IsSpace(At(m, x))
    ensures Same(t, AfterValue(t, Parsed(v, e), true), m, AfterValue(m, one', true), y, changes)
  {
    SkipBoth(t, e, m, x);
    y := Skip(m, x);
    if changes {
      SkipNothing(m, x);
      DocumentBeyond(m, one', true, y);
    }
  }

  /** The value that was read, with `whole` set. */
  lemma {:induction false} SameWhole(t: string, i: nat, m: string, k: nat, one: Outcome, one': Outcome, x: nat)
    returns (y: nat)
    requires Tracks(t, i, m, k) && !IsBlank(At(t, i)) && one == ParseValue(t, i) && one' == ParseValue(m, k)
    requires one.Parsed? && Same(t, one, m, one', x, ValueChanges(t, i)) && (ValueChanges(t, i) ==> !IsSpace(At(m, x)))
    ensures Same(t, AfterValue(t, one, true), m, AfterValue(m, one', true), y, Changes(t, i))
    ensures AfterValue(t, one, true).Parsed? || Parted(t, 0) ==> !Changes(t, i)
  {
    ValueSeenChanges(t, i, m, k);
    if At(t, Skip(t, one.end)) == '\0' {
      LastDoesNotChange(t, i, m, k, one.end);
    }
    y := SameRest(t, one.end, m, x, one.value, one', Changes(t, i));
  }

  /** What a text was rejected for without reaching its end. */
  lemma {:induction false} Unread(t: string, whole: bool)
    requires !ParseValue(t, Skip(t, 0)).Parsed?
    ensures ParseDocument(t, whole) == ParseValue(t, Skip(t, 0))
    ensures DocumentChanges(t, whole) == ValueChanges(t, Skip(t, 0))
  {
  }

  lemma {:induction false} BeyondToo(t: string, r: Outcome, m: string, one': Outcome, whole: bool, y: nat,
                                     changes: bool)
    requires Same(t, r, m, one', y, changes) && !r.Parsed? && (one'.Parsed? ==> one'.end <= |m|)
    ensures Same(t, r, m, AfterValue(m, one', whole), y, changes)
  {
  }

  lemma {:induction false} ReadThrough(t: string, whole: bool, i: nat)
    requires i == Skip(t, 0) && ParseValue(t, i).Parsed?
    ensures ParseDocument(t, whole) == AfterValue(t, ParseValue(t, i), whole)
    ensures DocumentSeen(t) == Value(i)
  {
  }

  lemma {:induction false} SameReadThrough(t: string, i: nat, m: string, k: nat, whole: bool, x: nat) returns (y: nat)
    requires Minifiable(t, 0) && m == Minify(t, 0) && i == Skip(t, 0) && k == Skip(m, 0) && ParseValue(t, i).Parsed?
    requires Same(t, ParseValue(t, i), m, ParseValue(m, k), x, ValueChanges(t, i))
    requires (ValueChanges(t, i) ==> !IsSpace(At(m, x)))
    ensures Same(t, ParseDocument(t, whole), m, ParseDocument(m, whole), y, DocumentChanges(t, whole))
    ensures Parted(t, 0) || (whole && ParseDocument(t, whole).Parsed?) ==> !DocumentChanges(t, whole)
  {
    if CommentAt(t, i) {
      CommentRejected(t, i, [], []);
      assert false;
    }
    TrackSkip(t, 0, m, 0);
    ReadThrough(t, whole, i);
    ValueSeenChanges(t, i, m, k);
    y := x;
    if whole {
      y := SameWhole(t, i, m, k, ParseValue(t, i), ParseValue(m, k), x);
    }
  }

  /** The outcomes for both, whether or not the whole text has to be read. */
  lemma {:induction false} SameDocument(t: string, m: string, whole: bool) returns (y: nat)
    requires Minifiable(t, 0) && m == Minify(t, 0)
    ensures Same(t, ParseDocument(t, whole), m, ParseDocument(m, whole), y, DocumentChanges(t, whole))
    ensures Parted(t, 0) || (whole && ParseDocument(t, whole).Parsed?) ==> !DocumentChanges(t, whole)
  {
    var i, k := Skip(t, 0), Skip(m, 0);
    y := SkippedValue(t, 0, m, 0);
    if ParseValue(t, i).Parsed? {
      y := SameReadThrough(t, i, m, k, whole, y);
    } else {
      Unread(t, whole);
      BeyondToo(t, ParseValue(t, i), m, ParseValue(m, k), whole, y, DocumentChanges(t, whole));
    }
  }

  /** Exactly when minifying keeps the outcome: a value and where it ends, or where
      the text is rejected.  A rejection at a comment is left open, since the minified
      text has no comments. */
  lemma {:induction false} OutcomeIsKeptExactlyWhen(t: string, whole: bool)
    requires Minifiable(t, 0)
    ensures match ParseDocument(t, whole)
            case Parsed(v, e) =>
              (ParseDocument(Minify(t, 0), whole) == Parsed(v, Kept(t, 0, e)) <==> !DocumentChanges(t, whole))
            case Rejected(at) =>
              at <= |t| && (!CommentAt(t, at) ==>
                (ParseDocument(Minify(t, 0), whole) == Rejected(Kept(t, 0, at)) <==> !DocumentChanges(t, whole)))
            case Unmodelled => ParseDocument(Minify(t, 0), whole) == Unmodelled
  {
    var m := Minify(t, 0);
    var y := SameDocument(t, m, whole);
    var r := ParseDocument(t, whole);
    if r.Parsed? {
      PlaceOf(t, r.end, m, y);
    } else if r.Rejected? && !CommentAt(t, r.at) {
      PlaceOf(t, r.at, m, y);
    }
  }

  lemma {:induction false} WholeEnds(t: string)
    requires ParseDocument(t, true).Parsed?
    ensures ParseDocument(t, true).end <= |t| && At(t, ParseDocument(t, true).end) == '\0'
  {
  }

  /** A text read to its end keeps its value. */
  lemma {:induction false} MinifyKeepsMeaning(t: string)
    requires Minifiable(t, 0) && ParseDocument(t, true).Parsed?
    ensures ParseDocument(Minify(t, 0), true) == Parsed(ParseDocument(t, true).value, |Minify(t, 0)|)
  {
    var m := Minify(t, 0);
    var y := SameDocument(t, m, true);
    WholeEnds(t);
    TrackEnd(t, ParseDocument(t, true).end, m, y);
  }

  /** A text without comments, whose blanks outside strings stand next to something
      other than numbers and keywords, keeps its outcome whatever it is. */
  lemma {:induction false} PartedTextIsKept(t: string, whole: bool)
    requires Minifiable(t, 0) && Parted(t, 0)
    ensures ParseDocument(Minify(t, 0), whole) ==
            match ParseDocument(t, whole)
            case Parsed(v, e) => Parsed(v, Kept(t, 0, e))
            case Rejected(at) => Rejected(Kept(t, 0, at))
            case Unmodelled => Unmodelled
  {
    var m := Minify(t, 0);
    var y := SameDocument(t, m, whole);
    var r := ParseDocument(t, whole);
    if r.Parsed? {
      PlaceOf(t, r.end, m, y);
    } else if r.Rejected? {
      PartedFrom(t, 0, r.at);
      PlaceOf(t, r.at, m, y);
    }
  }

  // ----- texts that change -----

  lemma MinifiesTo(t: string, i: nat, rest: string)
    requires i < |t| && IsPlain(t[i]) && Minifiable(t, i + 1) && Minify(t, i + 1) == rest
    ensures Minifiable(t, i) && Minify(t, i) == [t[i]] + rest
  {
    assert t[i..i + 1] == [t[i]];
  }

  lemma TwelvePrints(v: Json)
    requires v == Number(12.0)
    ensures Printable(v) && PrintableItems([v]) && Print(v, 0, false) == "12" && PrintItems([v], 0, false) == "12]"
  {
    assert Digits(12) == Digits(1) + "2" == "12";
    assert [v][1..] == [] && PrintableItems([]);
    assert PrintItems([v], 0, false) == "12" + "" + PrintItems([], 0, false);
  }

  lemma TwelveParses(t: string, whole: bool)
    requires t == "12"
    ensures ParseDocument(t, whole) == Parsed(Number(12.0), 2)
  {
    var v := Number(12.0);
    TwelvePrints(v);
    RoundTrip(v, 0, false, whole);
  }

  lemma ArrayOfTwelve(t: string, whole: bool)
    requires t == "[12]"
    ensures ParseDocument(t, whole) == Parsed(Array([Number(12.0)]), 4)
  {
    var v := Number(12.0);
    TwelvePrints(v);
    assert Print(Array([v]), 0, false) == "[12]";
    RoundTrip(Array([v]), 0, false, whole);
  }

  lemma OneParses(t: string)
    requires t == "1 2" || t == "1. 5"
    ensures NumberStarts(t, 0) && NumberValue(t, 0) == 1.0 && NumberEnd(t, 0) == 1
    ensures !HasFraction(t, IntegerEnd(t, 0)) && !HasExponent(t, 1) && IntegerEnd(t, 0) == 1
  {
    assert DigitRun(t, 1) == 1;
    assert IntegerEnd(t, 0) == 1;
    assert Accumulate(t, 0, 1, 0.0) == 1.0;
  }

  lemma NumberDocument(t: string)
    requires NumberStarts(t, 0)
    ensures ParseDocument(t, false) == Parsed(Number(NumberValue(t, 0)), NumberEnd(t, 0))
    ensures DocumentChanges(t, false) == Changes(t, 0)
  {
    ReadNumber(t, 0);
    assert Skip(t, 0) == 0;
  }

  lemma OneTwo(t: string)
    requires t == "1 2"
    ensures Minifiable(t, 0) && Minify(t, 0) == "12"
  {
    assert Minify(t, 3) == "";
    MinifiesTo(t, 2, "");
    assert Minify(t, 1) == "2";
    MinifiesTo(t, 0, "2");
  }

  /** A text read up to its first value can come to mean another one: the digits of
      two numbers become one number. */
  lemma {:induction false} MinifyMayJoin(t: string, m: string)
    requires t == "1 2" && m == "12"
    ensures ParseDocument(t, false) == Parsed(Number(1.0), 1)
    ensures Minifiable(t, 0) && Minify(t, 0) == m && ParseDocument(m, false) == Parsed(Number(12.0), 2)
  {
    OneParses(t);
    NumberDocument(t);
    OneTwo(t);
    TwelveParses(m, false);
  }

  lemma OnePointFive(t: string)
    requires t == "1. 5"
    ensures Minifiable(t, 0) && Minify(t, 0) == "1.5"
  {
    assert Minify(t, 4) == "";
    MinifiesTo(t, 3, "");
    assert Minify(t, 2) == "5";
    MinifiesTo(t, 1, "5");
    MinifiesTo(t, 0, ".5");
  }

  /** Not only white space directly behind the number can do that. */
  lemma {:induction false} PointMayJoin(t: string)
    requires t == "1. 5"
    ensures ParseDocument(t, false) == Parsed(Number(1.0), 1) && Minifiable(t, 0) && Kept(t, 0, 1) == 1
    ensures ParseDocument(Minify(t, 0), false) != Parsed(Number(1.0), 1)
  {
    OneParses(t);
    NumberDocument(t);
    OnePointFive(t);
    assert Continues(t, 0, '.', '5');
    assert PieceAt(t, 0) == Keep(1);
    OutcomeIsKeptExactlyWhen(t, false);
  }

  lemma ApartIsRejected(t: string)
    requires t == "[1 2]"
    ensures ParseDocument(t, true) == Rejected(3)
  {
    assert DigitRun(t, 2) == 2;
    assert IntegerEnd(t, 1) == 2;
    ReadNumber(t, 1);
    assert Skip(t, 0) == 0 && Skip(t, 1) == 1 && Skip(t, 2) == 3;
    ItemsStop(t, 1, [], Number(NumberValue(t, 1)), 2, 3);
    ReadArray(t, 0, 1);
  }

  lemma SpacesApart(t: string)
    requires t == "[1 2]"
    ensures Minifiable(t, 0) && Minify(t, 0) == "[12]"
  {
    assert Minify(t, 5) == "";
    MinifiesTo(t, 4, "");
    MinifiesTo(t, 3, "]");
    assert Minify(t, 2) == "2]";
    MinifiesTo(t, 1, "2]");
    MinifiesTo(t, 0, "12]");
  }

  /** A text that does not parse may come to parse. */
  lemma {:induction false} MinifyMayRepair(t: string, m: string)
    requires t == "[1 2]" && m == "[12]"
    ensures ParseDocument(t, true) == Rejected(3)
    ensures Minifiable(t, 0) && Minify(t, 0) == m && ParseDocument(m, true) == Parsed(Array([Number(12.0)]), 4)
  {
    ApartIsRejected(t);
    SpacesApart(t);
    ArrayOfTwelve(m, true);
  }
}
