/**
 What the parser returns for a text and for its minified form: the same, at
 matching places, except where white space had kept a number or a keyword from
 being longer.
 */
module JsonMinifyParse {
  import opened JsonText
  import opened JsonParse
  import opened JsonMinify
  import opened JsonNumberEnds
  import opened JsonTracks
  import opened JsonMinifyTokens

  // ----- skipping -----

  lemma {:induction false} ReachesSkip(t: string, i: nat)
    requires i <= |t| && Reaches(t, 0, i)
    ensures Reaches(t, 0, Skip(t, i))
    decreases |t| - i
  {
    if IsSpace(At(t, i)) {
      ReachesNext(t, 0, i);
      ReachesSkip(t, i + 1);
    }
  }

  lemma {:induction false} ItemsFail(t: string, i: nat, before: seq<Json>)
    requires i <= |t| && !ParseValue(t, i).Parsed?
    ensures ParseItems(t, i, before) == ParseValue(t, i) && ItemsSeen(t, i) == ValueSeen(t, i)
  {
  }

  lemma {:induction false} MemberNoName(t: string, i: nat)
    requires i <= |t| && At(t, i) != '\"'
    ensures ParseMember(t, i) == NoMember(Rejected(i)) && MemberSeen(t, i) == Elsewhere
  {
  }

  lemma {:induction false} MembersFail(t: string, i: nat, before: seq<Member>)
    requires i <= |t| && ParseMember(t, i).NoMember?
    ensures ParseMembers(t, i, before) == ParseMember(t, i).why && MembersSeen(t, i) == MemberSeen(t, i)
  {
  }

  /** A comment is where the parser rejects. */
  lemma {:induction false} CommentRejected(t: string, j: nat, items: seq<Json>, members: seq<Member>)
    requires j <= |t| && CommentAt(t, j)
    ensures ParseValue(t, j) == Rejected(j) && ParseItems(t, j, items) == Rejected(j)
    ensures ParseMember(t, j) == NoMember(Rejected(j)) && ParseMembers(t, j, members) == Rejected(j)
  {
    ReadNothing(t, j);
    ItemsFail(t, j, items);
    MemberNoName(t, j);
    MembersFail(t, j, members);
  }

  /** Past white space there is the same in both, or a comment. */
  lemma {:induction false} SkipBoth(t: string, i: nat, m: string, k: nat)
    requires Tracks(t, i, m, k)
    ensures Reaches(t, 0, Skip(t, i)) && (Parted(t, 0) ==> !CommentAt(t, Skip(t, i)))
    ensures !CommentAt(t, Skip(t, i)) ==>
              && Tracks(t, Skip(t, i), m, Skip(m, k)) && At(m, Skip(m, k)) == At(t, Skip(t, i))
              && !IsBlank(At(t, Skip(t, i)))
  {
    Tracked(t, i, m, k);
    ReachesSkip(t, i);
    if Parted(t, 0) {
      PartedFrom(t, 0, Skip(t, i));
    }
    if !CommentAt(t, Skip(t, i)) {
      TrackSkip(t, i, m, k);
    }
  }

  lemma {:induction false} SkipNothing(m: string, y: nat)
    requires y <= |m| && !IsSpace(At(m, y))
    ensures Skip(m, y) == y
  {
  }

  // ----- values -----

  lemma {:induction false} ReadArray(t: string, i: nat, j: nat)
    requires i < |t| && t[i] == '[' && j == Skip(t, i + 1)
    ensures ParseValue(t, i) == if At(t, j) == ']' then Parsed(Array([]), j + 1) else ParseItems(t, j, [])
    ensures ValueSeen(t, i) == ItemsSeen(t, j)
  {
  }

  lemma {:induction false} ReadObject(t: string, i: nat, j: nat)
    requires i < |t| && t[i] == '{' && j == Skip(t, i + 1)
    ensures ParseValue(t, i) == if At(t, j) == '}' then Parsed(Object([]), j + 1) else ParseMembers(t, j, [])
    ensures ValueSeen(t, i) == MembersSeen(t, j)
  {
  }

  /** What is parsed without being a number does not change. */
  lemma {:induction false} ParsedDoesNotChange(t: string, i: nat, m: string, k: nat)
    requires Tracks(t, i, m, k) && ParseValue(t, i).Parsed? && !IsBlank(At(t, i)) && !NumberStarts(t, i)
    ensures !Changes(t, i)
  {
    if StartsNothing(At(t, i)) {
      ReadNothing(t, i);
    } else {
      SameChar(t, i, m, k);
      KeptWord(t, i, m, k);
      if WordLetter(At(t, i)) {
        ReadWord(t, i);
      }
    }
  }

  lemma {:induction false} ScalarSeen(t: string, i: nat)
    requires i <= |t| && At(t, i) != '[' && At(t, i) != '{'
    ensures ValueSeen(t, i) == Value(i)
  {
  }

  /** `SameScalar` for every value. */
  lemma {:induction false} SameValue(t: string, i: nat, m: string, k: nat) returns (y: nat)
    requires Tracks(t, i, m, k) && !IsBlank(At(t, i))
    ensures Same(t, ParseValue(t, i), m, ParseValue(m, k), y, ValueChanges(t, i))
    ensures ParseValue(t, i).Parsed? && ValueChanges(t, i) ==> !IsSpace(At(m, y))
    ensures Parted(t, 0) ==> !ValueChanges(t, i)
    decreases |t| - i, 2
  {
    if At(t, i) == '[' {
      y := SameArray(t, i, m, k);
    } else if At(t, i) == '{' {
      y := SameObject(t, i, m, k);
    } else {
      y := SameScalar(t, i, m, k);
      if Parted(t, 0) {
        ScalarSeen(t, i);
        PartedDoesNotChange(t, i, m, k);
      }
    }
  }

  /** From unread white space on. */
  lemma {:induction false} SkippedValue(t: string, i: nat, m: string, k: nat) returns (y: nat)
    requires Tracks(t, i, m, k)
    ensures Same(t, ParseValue(t, Skip(t, i)), m, ParseValue(m, Skip(m, k)), y, ValueChanges(t, Skip(t, i)))
    ensures ParseValue(t, Skip(t, i)).Parsed? && ValueChanges(t, Skip(t, i)) ==> !IsSpace(At(m, y))
    ensures Parted(t, 0) ==> !ValueChanges(t, Skip(t, i))
    decreases |t| - i, 3
  {
    SkipBoth(t, i, m, k);
    if CommentAt(t, Skip(t, i)) {
      CommentRejected(t, Skip(t, i), [], []);
      y := k;
    } else {
      y := SameValue(t, Skip(t, i), m, Skip(m, k));
    }
  }

  // ----- arrays -----

  lemma {:induction false} ItemsGoOn(t: string, i: nat, before: seq<Json>, one: Json, d: nat, j: nat)
    requires i <= |t| && ParseValue(t, i) == Parsed(one, d) && j == Skip(t, d) && At(t, j) == ','
    ensures ParseItems(t, i, before) == ParseMoreItems(t, j + 1, before + [one])
    ensures ItemsSeen(t, i) == MoreItemsSeen(t, j + 1)
  {
  }

  lemma {:induction false} ItemsStop(t: string, i: nat, before: seq<Json>, one: Json, d: nat, j: nat)
    requires i <= |t| && ParseValue(t, i) == Parsed(one, d) && j == Skip(t, d) && At(t, j) != ','
    ensures ParseItems(t, i, before) == if At(t, j) == ']' then Parsed(Array(before + [one]), j + 1) else Rejected(j)
    ensures ItemsSeen(t, i) == Value(i)
  {
  }

  lemma {:induction false} ItemsBeyond(m: string, k: nat, before: seq<Json>, y: nat)
    requires k <= |m| && Beyond(ParseValue(m, k), y)
    ensures Beyond(ParseItems(m, k, before), y)
  {
  }

  /** From unread white space on. */
  lemma {:induction false} SkippedItems(t: string, i: nat, m: string, k: nat, before: seq<Json>) returns (y: nat)
    requires Tracks(t, i, m, k)
    ensures Same(t, ParseItems(t, Skip(t, i), before), m, ParseItems(m, Skip(m, k), before), y,
                 ItemsChange(t, Skip(t, i), ParseItems(t, Skip(t, i), before)))
    ensures Parted(t, 0) ==> !ItemsChange(t, Skip(t, i), ParseItems(t, Skip(t, i), before))
    ensures !CommentAt(t, Skip(t, i)) ==> At(m, Skip(m, k)) == At(t, Skip(t, i))
    decreases |t| - i, 5
  {
    SkipBoth(t, i, m, k);
    if CommentAt(t, Skip(t, i)) {
      CommentRejected(t, Skip(t, i), before, []);
      y := k;
    } else {
      y := SameItems(t, Skip(t, i), m, Skip(m, k), before);
    }
  }

  lemma {:induction false} SameItems(t: string, i: nat, m: string, k: nat, before: seq<Json>) returns (y: nat)
    requires Tracks(t, i, m, k) && !IsBlank(At(t, i))
    ensures Same(t, ParseItems(t, i, before), m, ParseItems(m, k, before), y,
                 ItemsChange(t, i, ParseItems(t, i, before)))
    ensures Parted(t, 0) ==> !ItemsChange(t, i, ParseItems(t, i, before))
    decreases |t| - i, 3
  {
    y := SameValue(t, i, m, k);
    var one := ParseValue(t, i);
    if one.Parsed? {
      y := SameAfterItem(t, i, m, k, before, one.value, one.end, y);
    } else {
      ItemsFail(t, i, before);
      if ValueChanges(t, i) && !CommentAt(t, one.at) {
        ItemsBeyond(m, k, before, y);
      } else if one.Unmodelled? || !CommentAt(t, one.at) {
        ItemsFail(m, k, before);
      }
    }
  }

  /** What both are read as goes on behind the comma. */
  lemma {:induction false} BothItemsGoOn(t: string, i: nat, m: string, k: nat, before: seq<Json>, v: Json, e: nat,
                                         x: nat)
    requires i <= |t| && k <= |m| && e <= |t| && x <= |m| && At(t, Skip(t, e)) == ',' && At(m, Skip(m, x)) == ','
    requires ParseValue(t, i) == Parsed(v, e) && ParseValue(m, k) == Parsed(v, x)
    ensures ParseItems(t, i, before) == ParseMoreItems(t, Skip(t, e) + 1, before + [v])
    ensures ParseItems(m, k, before) == ParseMoreItems(m, Skip(m, x) + 1, before + [v])
    ensures ItemsSeen(t, i) == MoreItemsSeen(t, Skip(t, e) + 1)
  {
    ItemsGoOn(t, i, before, v, e, Skip(t, e));
    ItemsGoOn(m, k, before, v, x, Skip(m, x));
  }

  lemma {:induction false} SameLastItem(t: string, e: nat, m: string, x: nat, before: seq<Json>, v: Json, r: Outcome,
                                        r': Outcome)
    returns (y: nat)
    requires Tracks(t, e, m, x) && At(t, Skip(t, e)) == ']'
    requires r == Parsed(Array(before + [v]), Skip(t, e) + 1) && r' == Parsed(Array(before + [v]), Skip(m, x) + 1)
    ensures Same(t, r, m, r', y, false)
  {
    var j' := TrackMark(t, e, m, x, Skip(t, e));
    y := j' + 1;
  }

  lemma {:induction false} ValueSeenChanges(t: string, i: nat, m: string, k: nat)
    requires Tracks(t, i, m, k) && !IsBlank(At(t, i)) && ParseValue(t, i).Parsed?
    ensures ValueChanges(t, i) == Changes(t, i) && (Parted(t, 0) ==> !Changes(t, i))
  {
    if !NumberStarts(t, i) {
      ParsedDoesNotChange(t, i, m, k);
    }
    if Parted(t, 0) {
      PartedDoesNotChange(t, i, m, k);
    }
  }

  /** Behind an element that nothing allowed follows. */
  lemma {:induction false} SameBadItem(t: string, i: nat, m: string, k: nat, before: seq<Json>, v: Json, e: nat, x: nat)
    returns (y: nat)
    requires Tracks(t, i, m, k) && !IsBlank(At(t, i)) && e <= |t|
    requires ParseValue(t, i) == Parsed(v, e) && Same(t, Parsed(v, e), m, ParseValue(m, k), x, ValueChanges(t, i))
    requires ValueChanges(t, i) ==> !IsSpace(At(m, x))
    requires At(t, Skip(t, e)) != ',' && At(t, Skip(t, e)) != ']'
    ensures ParseItems(t, i, before) == Rejected(Skip(t, e)) && ItemsSeen(t, i) == Value(i)
    ensures Same(t, Rejected(Skip(t, e)), m, ParseItems(m, k, before), y, Changes(t, i))
    ensures Parted(t, 0) ==> !Changes(t, i)
  {
    var j := Skip(t, e);
    ItemsStop(t, i, before, v, e, j);
    SkipBoth(t, e, m, x);
    y := Skip(m, x);
    ValueSeenChanges(t, i, m, k);
    if ValueChanges(t, i) {
      SkipNothing(m, x);
      ItemsBeyond(m, k, before, y);
    } else if !CommentAt(t, j) {
      ItemsStop(m, k, before, v, x, y);
    }
  }

  /** A value with a comma or closing bracket behind it does not change. */
  lemma {:induction false} FollowedValue(t: string, i: nat, m: string, k: nat, e: nat)
    requires Tracks(t, i, m, k) && ParseValue(t, i).Parsed? && ParseValue(t, i).end == e && Follows(At(t, Skip(t, e)))
    ensures !ValueChanges(t, i)
  {
    if NumberStarts(t, i) {
      ReadNumber(t, i);
      FollowedDoesNotChange(t, i, m, k);
    }
  }

  /** Behind an element. */
  lemma {:induction false} SameAfterItem(t: string, i: nat, m: string, k: nat, before: seq<Json>, v: Json, e: nat,
                                         x: nat)
    returns (y: nat)
    requires Tracks(t, i, m, k) && !IsBlank(At(t, i))
    requires ParseValue(t, i) == Parsed(v, e) && Same(t, Parsed(v, e), m, ParseValue(m, k), x, ValueChanges(t, i))
    requires ValueChanges(t, i) ==> !IsSpace(At(m, x))
    ensures Same(t, ParseItems(t, i, before), m, ParseItems(m, k, before), y,
                 ItemsChange(t, i, ParseItems(t, i, before)))
    ensures Parted(t, 0) ==> !ItemsChange(t, i, ParseItems(t, i, before))
    decreases |t| - i, 1
  {
    var j := Skip(t, e);
    if At(t, j) == ',' {
      FollowedValue(t, i, m, k, e);
      TrackSkip(t, e, m, x);
      BothItemsGoOn(t, i, m, k, before, v, e, x);
      y := ItemsBehind(t, e, m, x, before + [v], ParseItems(t, i, before), ParseItems(m, k, before),
                       ItemsChange(t, i, ParseItems(t, i, before)));
    } else if At(t, j) == ']' {
      FollowedValue(t, i, m, k, e);
      TrackSkip(t, e, m, x);
      ItemsStop(t, i, before, v, e, j);
      ItemsStop(m, k, before, v, x, Skip(m, x));
      y := SameLastItem(t, e, m, x, before, v, ParseItems(t, i, before), ParseItems(m, k, before));
    } else {
      ItemsStop(t, i, before, v, e, j);
      y := SameBadItem(t, i, m, k, before, v, e, x);
    }
  }

  /** Behind a comma. */
  lemma {:induction false} ItemsBehind(t: string, e: nat, m: string, x: nat, before: seq<Json>, r: Outcome, r': Outcome,
                                    changes: bool)
    returns (y: nat)
    requires Tracks(t, e, m, x) && At(t, Skip(t, e)) == ',' && At(m, Skip(m, x)) == ','
    requires r == ParseMoreItems(t, Skip(t, e) + 1, before) && r' == ParseMoreItems(m, Skip(m, x) + 1, before)
    requires changes == (r.Rejected? && SeenChanges(t, MoreItemsSeen(t, Skip(t, e) + 1)))
    ensures Same(t, r, m, r', y, changes) && (Parted(t, 0) ==> !changes)
    decreases |t| - e, 6
  {
    var j' := TrackMark(t, e, m, x, Skip(t, e));
    y := SkippedItems(t, Skip(t, e) + 1, m, j' + 1, before);
  }

  /** Nothing in the brackets. */
  lemma {:induction false} SameEmptyArray(t: string, i: nat, m: string, k: nat) returns (y: nat)
    requires Tracks(t, i + 1, m, k + 1) && At(t, i) == '[' && At(m, k) == '[' && At(t, Skip(t, i + 1)) == ']'
    ensures Same(t, ParseValue(t, i), m, ParseValue(m, k), y, false) && ParseValue(t, i).Parsed?
  {
    var j := Skip(t, i + 1);
    var j' := TrackMark(t, i + 1, m, k + 1, j);
    ReadArray(t, i, j);
    ReadArray(m, k, j');
    y := j' + 1;
  }

  /** Something in the brackets. */
  lemma {:induction false} ArrayChanges(t: string, i: nat, j: nat)
    requires i < |t| && t[i] == '[' && j == Skip(t, i + 1) && At(t, j) != ']'
    ensures ParseValue(t, i) == ParseItems(t, j, []) && ValueChanges(t, i) == ItemsChange(t, j, ParseItems(t, j, []))
  {
    ReadArray(t, i, j);
  }

  lemma {:induction false} SameArray(t: string, i: nat, m: string, k: nat) returns (y: nat)
    requires Tracks(t, i, m, k) && At(t, i) == '['
    ensures Same(t, ParseValue(t, i), m, ParseValue(m, k), y, ValueChanges(t, i))
    ensures ParseValue(t, i).Parsed? ==> !ValueChanges(t, i)
    ensures Parted(t, 0) ==> !ValueChanges(t, i)
    decreases |t| - i, 1
  {
    TrackKept(t, i, m, k);
    var j, j' := Skip(t, i + 1), Skip(m, k + 1);
    if At(t, j) == ']' {
      y := SameEmptyArray(t, i, m, k);
    } else {
      y := SkippedItems(t, i + 1, m, k + 1, []);
      ArrayChanges(t, i, j);
      if CommentAt(t, j) {
        CommentRejected(t, j, [], []);
      } else {
        ReadArray(m, k, j');
      }
    }
  }

  // ----- objects -----

  /** Nothing in the brackets. */
  lemma {:induction false} SameEmptyObject(t: string, i: nat, m: string, k: nat) returns (y: nat)
    requires Tracks(t, i + 1, m, k + 1) && At(t, i) == '{' && At(m, k) == '{' && At(t, Skip(t, i + 1)) == '}'
    ensures Same(t, ParseValue(t, i), m, ParseValue(m, k), y, false) && ParseValue(t, i).Parsed?
  {
    var j := Skip(t, i + 1);
    var j' := TrackMark(t, i + 1, m, k + 1, j);
    ReadObject(t, i, j);
    ReadObject(m, k, j');
    y := j' + 1;
  }

  /** Something in the brackets. */
  lemma {:induction false} ObjectChanges(t: string, i: nat, j: nat)
    requires i < |t| && t[i] == '{' && j == Skip(t, i + 1) && At(t, j) != '}'
    ensures ParseValue(t, i) == ParseMembers(t, j, [])
    ensures ValueChanges(t, i) == MembersChange(t, j, ParseMembers(t, j, []))
  {
    ReadObject(t, i, j);
  }

  lemma {:induction false} SameObject(t: string, i: nat, m: string, k: nat) returns (y: nat)
    requires Tracks(t, i, m, k) && At(t, i) == '{'
    ensures Same(t, ParseValue(t, i), m, ParseValue(m, k), y, ValueChanges(t, i))
    ensures ParseValue(t, i).Parsed? ==> !ValueChanges(t, i)
    ensures Parted(t, 0) ==> !ValueChanges(t, i)
    decreases |t| - i, 1
  {
    TrackKept(t, i, m, k);
    var j, j' := Skip(t, i + 1), Skip(m, k + 1);
    if At(t, j) == '}' {
      y := SameEmptyObject(t, i, m, k);
    } else {
      y := SkippedMembers(t, i + 1, m, k + 1, []);
      ObjectChanges(t, i, j);
      if CommentAt(t, j) {
        CommentRejected(t, j, [], []);
      } else {
        ReadObject(m, k, j');
      }
    }
  }

  /** A member's outcome as that of its value. */
  function ValueOf(r: MemberOutcome): Outcome {
    match r
    case OneMember(one, e) => Parsed(one.value, e)
    case NoMember(why) => why
  }

  function Named(name: string, r: Outcome): MemberOutcome {
    if r.Parsed? then OneMember(Member(name, r.value), r.end) else NoMember(r)
  }

  predicate MemberChanges(t: string, i: nat)
    requires i <= |t|
  {
    match ParseMember(t, i)
    case OneMember(_, _) => NumberStarts(t, MemberValue(t, i)) && Changes(t, MemberValue(t, i))
    case NoMember(why) => why.Rejected? && SeenChanges(t, MemberSeen(t, i))
  }

  lemma {:induction false} MemberBadName(t: string, i: nat)
    requires i <= |t| && ParseString(t, i).BadEscape?
    ensures ParseMember(t, i) == NoMember(Unmodelled)
  {
  }

  lemma {:induction false} MemberNoColon(t: string, i: nat, name: string, e: nat, c: nat)
    requires i <= |t| && ParseString(t, i) == Text(name, e) && c == Skip(t, e) && At(t, c) != ':'
    ensures ParseMember(t, i) == NoMember(Rejected(c)) && MemberSeen(t, i) == Elsewhere
  {
  }

  lemma {:induction false} MemberRead(t: string, i: nat, name: string, e: nat, c: nat, p: nat)
    requires i <= |t| && ParseString(t, i) == Text(name, e) && c == Skip(t, e) && At(t, c) == ':' && p == Skip(t, c + 1)
    ensures ParseMember(t, i) == Named(name, ParseValue(t, p))
    ensures MemberSeen(t, i) == ValueSeen(t, p) && MemberValue(t, i) == p && i < p
  {
  }

  /** Where the member's value starts, if it comes that far. */
  lemma {:induction false} SameMember(t: string, i: nat, m: string, k: nat) returns (y: nat)
    requires Tracks(t, i, m, k) && !IsBlank(At(t, i))
    ensures Same(t, ValueOf(ParseMember(t, i)), m, ValueOf(ParseMember(m, k)), y, MemberChanges(t, i))
    ensures ParseMember(t, i).OneMember? && MemberChanges(t, i) ==> !IsSpace(At(m, y))
    ensures ParseMember(t, i).OneMember? && !MemberChanges(t, i) ==>
              ParseMember(m, k) == OneMember(ParseMember(t, i).member, y)
    ensures Parted(t, 0) ==> !MemberChanges(t, i)
    decreases |t| - i, 3
  {
    if At(t, i) != '\"' {
      Tracked(t, i, m, k);
      MemberNoName(t, i);
      y := k;
      if !CommentAt(t, i) {
        SameChar(t, i, m, k);
        MemberNoName(m, k);
      }
    } else {
      var x := TrackString(t, i, m, k);
      if ParseString(t, i).Text? {
        y := SameNamed(t, i, m, k, ParseString(t, i).text, ParseString(t, i).end, x);
      } else {
        MemberBadName(t, i);
        MemberBadName(m, k);
        y := k;
      }
    }
  }

  /** No colon behind the name. */
  lemma {:induction false} SameWithoutColon(t: string, i: nat, m: string, k: nat, name: string, e: nat, x: nat)
    returns (y: nat)
    requires i <= |t| && Tracks(t, e, m, x) && k <= |m| && At(t, Skip(t, e)) != ':'
    requires ParseString(t, i) == Text(name, e) && ParseString(m, k) == Text(name, x)
    ensures ParseMember(t, i).NoMember? && !MemberChanges(t, i)
    ensures Same(t, ValueOf(ParseMember(t, i)), m, ValueOf(ParseMember(m, k)), y, false)
  {
    var c := Skip(t, e);
    MemberNoColon(t, i, name, e, c);
    SkipBoth(t, e, m, x);
    y := Skip(m, x);
    if !CommentAt(t, c) {
      MemberNoColon(m, k, name, x, y);
    }
  }

  /** The value behind the colon is the member's. */
  lemma {:induction false} NamedValue(t: string, i: nat, name: string, e: nat, p: nat)
    requires i <= |t| && ParseString(t, i) == Text(name, e) && At(t, Skip(t, e)) == ':' && p == Skip(t, Skip(t, e) + 1)
    ensures ParseMember(t, i) == Named(name, ParseValue(t, p))
    ensures ValueOf(ParseMember(t, i)) == ParseValue(t, p)
    ensures MemberChanges(t, i) == ValueChanges(t, p)
  {
    MemberRead(t, i, name, e, Skip(t, e), p);
  }

  /** The value behind the colon, in both. */
  lemma {:induction false} SameBehindColon(t: string, e: nat, m: string, x: nat, p: nat, p': nat, r: Outcome,
                                           r': Outcome)
    returns (y: nat)
    requires Tracks(t, e, m, x) && At(t, Skip(t, e)) == ':' && p == Skip(t, Skip(t, e) + 1)
    requires Skip(m, x) < |m| ==> p' == Skip(m, Skip(m, x) + 1)
    requires p' <= |m| && r == ParseValue(t, p) && r' == ParseValue(m, p')
    ensures Same(t, r, m, r', y, ValueChanges(t, p))
    ensures r.Parsed? && ValueChanges(t, p) ==> !IsSpace(At(m, y))
    ensures Parted(t, 0) ==> !ValueChanges(t, p)
    decreases |t| - e, 4
  {
    var c := Skip(t, e);
    var c' := TrackMark(t, e, m, x, c);
    y := SkippedValue(t, c + 1, m, c' + 1);
  }

  lemma {:induction false} ColonToo(t: string, e: nat, m: string, x: nat)
    requires Tracks(t, e, m, x) && At(t, Skip(t, e)) == ':'
    ensures At(m, Skip(m, x)) == ':'
  {
    TrackSkip(t, e, m, x);
  }

  lemma {:induction false} SameNamed(t: string, i: nat, m: string, k: nat, name: string, e: nat, x: nat)
    returns (y: nat)
    requires Tracks(t, i, m, k)
    requires ParseString(t, i) == Text(name, e) && ParseString(m, k) == Text(name, x) && Tracks(t, e, m, x)
    ensures Same(t, ValueOf(ParseMember(t, i)), m, ValueOf(ParseMember(m, k)), y, MemberChanges(t, i))
    ensures ParseMember(t, i).OneMember? && MemberChanges(t, i) ==> !IsSpace(At(m, y))
    ensures ParseMember(t, i).OneMember? && !MemberChanges(t, i) ==>
              ParseMember(m, k) == OneMember(ParseMember(t, i).member, y)
    ensures Parted(t, 0) ==> !MemberChanges(t, i)
    decreases |t| - i, 2
  {
    if At(t, Skip(t, e)) != ':' {
      y := SameWithoutColon(t, i, m, k, name, e, x);
    } else {
      ColonToo(t, e, m, x);
      var p, p' := Skip(t, Skip(t, e) + 1), Skip(m, Skip(m, x) + 1);
      NamedValue(t, i, name, e, p);
      NamedValue(m, k, name, x, p');
      y := SameBehindColon(t, e, m, x, p, p', ValueOf(ParseMember(t, i)), ValueOf(ParseMember(m, k)));
    }
  }

  lemma {:induction false} MembersGoOn(t: string, i: nat, before: seq<Member>, one: Member, d: nat, j: nat)
    requires i <= |t| && ParseMember(t, i) == OneMember(one, d) && j == Skip(t, d) && At(t, j) == ','
    ensures ParseMembers(t, i, before) == ParseMoreMembers(t, j + 1, before + [one])
    ensures MembersSeen(t, i) == MoreMembersSeen(t, j + 1)
  {
  }

  lemma {:induction false} MembersStop(t: string, i: nat, before: seq<Member>, one: Member, d: nat, j: nat)
    requires i <= |t| && ParseMember(t, i) == OneMember(one, d) && j == Skip(t, d) && At(t, j) != ','
    ensures ParseMembers(t, i, before) == if At(t, j) == '}' then Parsed(Object(before + [one]), j + 1) else Rejected(j)
    ensures MembersSeen(t, i) == Value(MemberValue(t, i))
  {
  }

  lemma {:induction false} MembersBeyond(m: string, k: nat, before: seq<Member>, y: nat)
    requires k <= |m| && Beyond(ValueOf(ParseMember(m, k)), y)
    ensures Beyond(ParseMembers(m, k, before), y)
  {
  }

  /** From unread white space on. */
  lemma {:induction false} SkippedMembers(t: string, i: nat, m: string, k: nat, before: seq<Member>) returns (y: nat)
    requires Tracks(t, i, m, k)
    ensures Same(t, ParseMembers(t, Skip(t, i), before), m, ParseMembers(m, Skip(m, k), before), y,
                 MembersChange(t, Skip(t, i), ParseMembers(t, Skip(t, i), before)))
    ensures Parted(t, 0) ==> !MembersChange(t, Skip(t, i), ParseMembers(t, Skip(t, i), before))
    ensures !CommentAt(t, Skip(t, i)) ==> At(m, Skip(m, k)) == At(t, Skip(t, i))
    decreases |t| - i, 5
  {
    SkipBoth(t, i, m, k);
    if CommentAt(t, Skip(t, i)) {
      CommentRejected(t, Skip(t, i), [], before);
      y := k;
    } else {
      y := SameMembers(t, Skip(t, i), m, Skip(m, k), before);
    }
  }

  lemma {:induction false} SameMembers(t: string, i: nat, m: string, k: nat, before: seq<Member>) returns (y: nat)
    requires Tracks(t, i, m, k) && !IsBlank(At(t, i))
    ensures Same(t, ParseMembers(t, i, before), m, ParseMembers(m, k, before), y,
                 MembersChange(t, i, ParseMembers(t, i, before)))
    ensures Parted(t, 0) ==> !MembersChange(t, i, ParseMembers(t, i, before))
    decreases |t| - i, 4
  {
    y := SameMember(t, i, m, k);
    var one := ParseMember(t, i);
    if one.OneMember? {
      y := SameAfterMember(t, i, m, k, before, one.member, one.end, y);
    } else {
      MembersFail(t, i, before);
      if MemberChanges(t, i) && !CommentAt(t, one.why.at) {
        MembersBeyond(m, k, before, y);
      } else if one.why.Unmodelled? || !CommentAt(t, one.why.at) {
        MembersFail(m, k, before);
      }
    }
  }

  /** What both are read as goes on behind the comma. */
  lemma {:induction false} BothMembersGoOn(t: string, i: nat, m: string, k: nat, before: seq<Member>, one: Member,
                                           e: nat, x: nat)
    requires i <= |t| && k <= |m| && e <= |t| && x <= |m| && At(t, Skip(t, e)) == ',' && At(m, Skip(m, x)) == ','
    requires ParseMember(t, i) == OneMember(one, e) && ParseMember(m, k) == OneMember(one, x)
    ensures ParseMembers(t, i, before) == ParseMoreMembers(t, Skip(t, e) + 1, before + [one])
    ensures ParseMembers(m, k, before) == ParseMoreMembers(m, Skip(m, x) + 1, before + [one])
    ensures MembersSeen(t, i) == MoreMembersSeen(t, Skip(t, e) + 1)
  {
    MembersGoOn(t, i, before, one, e, Skip(t, e));
    MembersGoOn(m, k, before, one, x, Skip(m, x));
  }

  lemma {:induction false} SameLastMember(t: string, e: nat, m: string, x: nat, before: seq<Member>, one: Member,
                                          r: Outcome, r': Outcome)
    returns (y: nat)
    requires Tracks(t, e, m, x) && At(t, Skip(t, e)) == '}'
    requires r == Parsed(Object(before + [one]), Skip(t, e) + 1) && r' == Parsed(Object(before + [one]), Skip(m, x) + 1)
    ensures Same(t, r, m, r', y, false)
  {
    var j' := TrackMark(t, e, m, x, Skip(t, e));
    y := j' + 1;
  }

  /** The member's value is tracked from where it starts. */
  lemma {:induction false} MemberValueTracked(t: string, i: nat, m: string, k: nat) returns (p': nat)
    requires Tracks(t, i, m, k) && ParseMember(t, i).OneMember?
    ensures Tracks(t, MemberValue(t, i), m, p') && !IsBlank(At(t, MemberValue(t, i)))
    ensures ParseValue(t, MemberValue(t, i)) == ValueOf(ParseMember(t, i))
  {
    var x := TrackString(t, i, m, k);
    var name, e := ParseString(t, i).text, ParseString(t, i).end;
    var c := Skip(t, e);
    var c' := TrackMark(t, e, m, x, c);
    var p := Skip(t, c + 1);
    MemberRead(t, i, name, e, c, p);
    if CommentAt(t, p) {
      ReadNothing(t, p);
      assert false;
    }
    TrackSkip(t, c + 1, m, c' + 1);
    p' := Skip(m, c' + 1);
  }

  lemma {:induction false} MemberSeenChanges(t: string, i: nat, m: string, k: nat)
    requires Tracks(t, i, m, k) && ParseMember(t, i).OneMember?
    ensures MemberChanges(t, i) == Changes(t, MemberValue(t, i))
    ensures Parted(t, 0) ==> !Changes(t, MemberValue(t, i))
  {
    var p' := MemberValueTracked(t, i, m, k);
    ValueSeenChanges(t, MemberValue(t, i), m, p');
  }

  /** Behind a member that nothing allowed follows. */
  lemma {:induction false} SameBadMember(t: string, i: nat, m: string, k: nat, before: seq<Member>, one: Member,
                                         e: nat, x: nat)
    returns (y: nat)
    requires Tracks(t, i, m, k) && e <= |t|
    requires ParseMember(t, i) == OneMember(one, e) && Tracks(t, e, m, x)
    requires if MemberChanges(t, i) then Beyond(ValueOf(ParseMember(m, k)), x) && !IsSpace(At(m, x))
             else ParseMember(m, k) == OneMember(one, x)
    requires At(t, Skip(t, e)) != ',' && At(t, Skip(t, e)) != '}'
    ensures ParseMembers(t, i, before) == Rejected(Skip(t, e)) && MembersSeen(t, i) == Value(MemberValue(t, i))
    ensures Same(t, Rejected(Skip(t, e)), m, ParseMembers(m, k, before), y, Changes(t, MemberValue(t, i)))
    ensures Parted(t, 0) ==> !Changes(t, MemberValue(t, i))
  {
    var j := Skip(t, e);
    MembersStop(t, i, before, one, e, j);
    SkipBoth(t, e, m, x);
    y := Skip(m, x);
    MemberSeenChanges(t, i, m, k);
    if MemberChanges(t, i) {
      SkipNothing(m, x);
      MembersBeyond(m, k, before, y);
    } else if !CommentAt(t, j) {
      MembersStop(m, k, before, one, x, y);
    }
  }

  lemma {:induction false} FollowedMember(t: string, i: nat, m: string, k: nat, e: nat)
    requires Tracks(t, i, m, k) && ParseMember(t, i).OneMember? && ParseMember(t, i).end == e
    requires Follows(At(t, Skip(t, e)))
    ensures !MemberChanges(t, i)
  {
    var p' := MemberValueTracked(t, i, m, k);
    FollowedValue(t, MemberValue(t, i), m, p', e);
  }

  /** Behind a member. */
  lemma {:induction false} SameAfterMember(t: string, i: nat, m: string, k: nat, before: seq<Member>, one: Member,
                                           e: nat, x: nat)
    returns (y: nat)
    requires Tracks(t, i, m, k)
    requires ParseMember(t, i) == OneMember(one, e) && Tracks(t, e, m, x)
    requires if MemberChanges(t, i) then Beyond(ValueOf(ParseMember(m, k)), x) && !IsSpace(At(m, x))
             else ParseMember(m, k) == OneMember(one, x)
    ensures Same(t, ParseMembers(t, i, before), m, ParseMembers(m, k, before), y,
                 MembersChange(t, i, ParseMembers(t, i, before)))
    ensures Parted(t, 0) ==> !MembersChange(t, i, ParseMembers(t, i, before))
    decreases |t| - i, 1
  {
    var j := Skip(t, e);
    if At(t, j) == ',' {
      FollowedMember(t, i, m, k, e);
      TrackSkip(t, e, m, x);
      BothMembersGoOn(t, i, m, k, before, one, e, x);
      y := MembersBehind(t, e, m, x, before + [one], ParseMembers(t, i, before), ParseMembers(m, k, before),
                       MembersChange(t, i, ParseMembers(t, i, before)));
    } else if At(t, j) == '}' {
      FollowedMember(t, i, m, k, e);
      TrackSkip(t, e, m, x);
      MembersStop(t, i, before, one, e, j);
      MembersStop(m, k, before, one, x, Skip(m, x));
      y := SameLastMember(t, e, m, x, before, one, ParseMembers(t, i, before), ParseMembers(m, k, before));
    } else {
      MembersStop(t, i, before, one, e, j);
      y := SameBadMember(t, i, m, k, before, one, e, x);
    }
  }

  /** Behind a comma. */
  lemma {:induction false} MembersBehind(t: string, e: nat, m: string, x: nat, before: seq<Member>, r: Outcome,
                                         r': Outcome,
                                    changes: bool)
    returns (y: nat)
    requires Tracks(t, e, m, x) && At(t, Skip(t, e)) == ',' && At(m, Skip(m, x)) == ','
    requires r == ParseMoreMembers(t, Skip(t, e) + 1, before) && r' == ParseMoreMembers(m, Skip(m, x) + 1, before)
    requires changes == (r.Rejected? && SeenChanges(t, MoreMembersSeen(t, Skip(t, e) + 1)))
    ensures Same(t, r, m, r', y, changes) && (Parted(t, 0) ==> !changes)
    decreases |t| - e, 6
  {
    var j' := TrackMark(t, e, m, x, Skip(t, e));
    y := SkippedMembers(t, Skip(t, e) + 1, m, j' + 1, before);
  }
}
