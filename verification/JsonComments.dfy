/**
 Texts with comments: minified they mean what they mean with white space in place
 of the comments, which the parser itself does not read.
 */
module JsonComments {
  import opened JsonText
  import opened JsonParse
  import opened JsonMinify
  import opened JsonTracks
  import opened JsonMinifyDocument

  function Spaces(n: nat): (s: string)
    ensures |s| == n && forall k :: 0 <= k < n ==> s[k] == ' '
  {
    if n == 0 then "" else " " + Spaces(n - 1)
  }

  /** The text from `i` on with a space for each character of a comment. */
  function Blanked(t: string, i: nat): (s: string)
    requires i <= |t|
    ensures |s| == |t| - i
    decreases |t| - i
  {
    if At(t, i) == '\0' || PieceAt(t, i).Open? then t[i..]
    else
      var next := PieceAt(t, i).next;
      (if CommentAt(t, i) then Spaces(next - i) else t[i..next]) + Blanked(t, next)
  }

  /** `b` from `i` on is the blanked text. */
  ghost predicate BlankedFrom(t: string, i: nat, b: string) {
    i <= |t| == |b| && Minifiable(t, i) && b[i..] == Blanked(t, i)
  }

  // ----- the next piece -----

  lemma {:induction false} FirstBlanked(t: string, i: nat, b: string)
    requires BlankedFrom(t, i, b)
    ensures At(b, i) == if CommentAt(t, i) then ' ' else At(t, i)
  {
    if i < |t| {
      assert b[i] == b[i..][0];
    }
  }

  lemma {:induction false} NextBlanked(t: string, i: nat, b: string, next: nat)
    requires BlankedFrom(t, i, b) && At(t, i) != '\0' && next == PieceAt(t, i).next
    ensures BlankedFrom(t, next, b)
    ensures Has(b, i, if CommentAt(t, i) then Spaces(next - i) else t[i..next])
  {
    var p := if CommentAt(t, i) then Spaces(next - i) else t[i..next];
    var rest := Blanked(t, next);
    assert b[i..] == p + rest;
    assert b[next..] == b[i..][|p|..] == rest;
    forall k | 0 <= k < |p| ensures p[k] == b[i + k] {
      assert b[i..][k] == (p + rest)[k];
    }
  }

  /** No comment is left. */
  lemma {:induction false} NoCommentThere(t: string, i: nat, b: string)
    requires BlankedFrom(t, i, b)
    ensures !CommentAt(b, i)
  {
    FirstBlanked(t, i, b);
    if At(b, i) == '/' {
      NextBlanked(t, i, b, i + 1);
      FirstBlanked(t, i + 1, b);
    }
  }

  /** What is no comment is the same piece. */
  lemma {:induction false} SamePiece(t: string, i: nat, b: string)
    requires BlankedFrom(t, i, b) && At(t, i) != '\0' && !CommentAt(t, i)
    ensures At(b, i) == At(t, i) && PieceAt(b, i) == PieceAt(t, i)
  {
    FirstBlanked(t, i, b);
    if At(t, i) == '\"' {
      var q := StringEnd(t, i + 1);
      NextBlanked(t, i, b, q + 1);
      HasRepeats(t, i, q + 1, b, i);
      RepeatsFrom(t, i, q + 1, b, i, i + 1);
      SameStringEnd(t, i + 1, q, b, i + 1);
    } else if At(t, i) == '/' {
      NoCommentThere(t, i, b);
    }
  }

  // ----- the whole text -----

  lemma {:induction false} SameSlice(t: string, i: nat, next: nat, b: string)
    requires i <= next <= |t| && Has(b, i, t[i..next])
    ensures next <= |b| && b[i..next] == t[i..next]
  {
  }

  lemma {:induction false} BlankedMinifies(t: string, i: nat, b: string)
    requires BlankedFrom(t, i, b)
    ensures Minifiable(b, i) && Minify(b, i) == Minify(t, i)
    decreases |t| - i
  {
    FirstBlanked(t, i, b);
    if At(t, i) != '\0' {
      var next := PieceAt(t, i).next;
      NextBlanked(t, i, b, next);
      BlankedMinifies(t, next, b);
      if CommentAt(t, i) {
        BlanksGo(b, i, Spaces(next - i), next);
        assert "" + Minify(b, next) == Minify(b, next);
      } else {
        SamePiece(t, i, b);
        SameSlice(t, i, next, b);
      }
    }
  }

  /** Through white space the scanner goes one character at a time. */
  lemma {:induction false} ThroughBlanks(b: string, i: nat, next: nat, x: nat)
    requires i <= next <= |b| && (forall k :: i <= k < next ==> b[k] == ' ') && Reaches(b, i, x)
    ensures i <= x < next || Reaches(b, next, x)
    decreases next - i
  {
    if i < next && i != x {
      ThroughBlanks(b, i + 1, next, x);
    }
  }

  lemma {:induction false} InsideSpaces(b: string, i: nat, next: nat)
    requires i <= next && Has(b, i, Spaces(next - i))
    ensures forall k :: i <= k < next ==> b[k] == ' '
  {
    forall k | i <= k < next ensures b[k] == ' ' {
      HasAt(b, i, Spaces(next - i), k - i);
    }
  }

  lemma {:induction false} NoCommentReached(t: string, i: nat, b: string, x: nat)
    requires BlankedFrom(t, i, b) && Reaches(b, i, x) && x <= |b|
    ensures !CommentAt(b, x)
    decreases |t| - i
  {
    FirstBlanked(t, i, b);
    if i == x || At(t, i) == '\0' {
      NoCommentThere(t, i, b);
    } else {
      var next := PieceAt(t, i).next;
      NextBlanked(t, i, b, next);
      if CommentAt(t, i) {
        InsideSpaces(b, i, next);
        ThroughBlanks(b, i, next, x);
      } else {
        SamePiece(t, i, b);
      }
      if Reaches(b, next, x) {
        NoCommentReached(t, next, b, x);
      }
    }
  }

  /** Comments make no difference to the minified text. */
  lemma {:induction false} CommentsAreDropped(t: string)
    requires Minifiable(t, 0)
    ensures Minifiable(Blanked(t, 0), 0) && Minify(Blanked(t, 0), 0) == Minify(t, 0)
  {
    var b := Blanked(t, 0);
    assert b[0..] == b;
    BlankedMinifies(t, 0, b);
  }

  /** Exactly when the minified text has the outcome of the text with white space in
      place of its comments. */
  lemma {:induction false} CommentsAreWhiteSpace(t: string, whole: bool)
    requires Minifiable(t, 0)
    ensures var b, r := Blanked(t, 0), ParseDocument(Minify(t, 0), whole);
            match ParseDocument(b, whole)
            case Parsed(v, e) => (r == Parsed(v, Kept(b, 0, e)) <==> !DocumentChanges(b, whole))
            case Rejected(at) => (r == Rejected(Kept(b, 0, at)) <==> !DocumentChanges(b, whole))
            case Unmodelled => r == Unmodelled
  {
    var b := Blanked(t, 0);
    CommentsAreDropped(t);
    OutcomeIsKeptExactlyWhen(b, whole);
    if ParseDocument(b, whole).Rejected? {
      var at := ParseDocument(b, whole).at;
      var _ := SameDocument(b, Minify(b, 0), whole);
      assert b[0..] == b;
      NoCommentReached(t, 0, b, at);
    }
  }
}
