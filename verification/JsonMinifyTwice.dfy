/**
 Minifying what was minified: when the second pass changes nothing.
 */
module JsonMinifyTwice {
  import opened JsonText
  import opened JsonMinify
  import opened JsonNumberEnds
  import opened JsonTracks

  predicate MakesComment(c: char) {
    c == '/' || c == '*'
  }

  /** From `i` on no kept slash has a slash or star as the next character kept; with
      `slash` set, the character kept last was a slash. */
  predicate Apart(t: string, i: nat, slash: bool)
    requires i <= |t|
    decreases |t| - i
  {
    || At(t, i) == '\0'
    || match PieceAt(t, i)
       case Open => true
       case Drop(next) => Apart(t, next, slash)
       case Keep(next) => !(slash && MakesComment(t[i])) && Apart(t, next, t[i] == '/')
  }

  lemma {:induction false} ApartSlash(t: string, i: nat)
    requires i <= |t| && Minifiable(t, i)
    ensures Apart(t, i, true) <==> Apart(t, i, false) && !MakesComment(KeptAt(Minify(t, i), 0))
    decreases |t| - i
  {
    if At(t, i) != '\0' && PieceAt(t, i).Drop? {
      ApartSlash(t, PieceAt(t, i).next);
    }
  }

  /** Behind a kept slash. */
  lemma {:induction false} ApartBehindSlash(t: string, i: nat, m: string, k: nat)
    requires Tracks(t, i, m, k)
    ensures Apart(t, i, true) <==> Apart(t, i, false) && !MakesComment(KeptAt(m, k))
  {
    Tracked(t, i, m, k);
    ApartSlash(t, i);
    KeptIs(t, i, m, k, 0);
  }

  /** A kept piece is kept again, unless it is a slash that comes to open a comment. */
  lemma {:induction false} KeptAgain(t: string, i: nat, m: string, k: nat, e: nat)
    requires Tracks(t, i, m, k) && At(t, i) != '\0' && PieceAt(t, i) == Keep(e)
    ensures Tracks(t, e, m, k + (e - i)) && k < |m| && m[k] == t[i]
    ensures !(t[i] == '/' && MakesComment(KeptAt(m, k + 1))) ==> PieceAt(m, k) == Keep(k + (e - i))
  {
    TrackKeep(t, i, m, k, e);
    SameAt(t, i, e, m, k, i);
    if t[i] == '\"' {
      RepeatsFrom(t, i, e, m, k, i + 1);
      SameStringEnd(t, i + 1, e - 1, m, k + 1);
    }
  }

  lemma {:induction false} KeepOne(m: string, k: nat, e: nat)
    requires k < |m| && m[k] != '\0' && PieceAt(m, k) == Keep(e)
    ensures Minifiable(m, k) <==> Minifiable(m, e)
    ensures Minifiable(m, k) ==> Minify(m, k) == m[k..e] + Minify(m, e)
  {
  }

  /** Where no slash meets another the second pass keeps all there is. */
  lemma {:induction false} ApartIsKept(t: string, i: nat, m: string, k: nat)
    requires Tracks(t, i, m, k) && Apart(t, i, false)
    ensures Minifiable(m, k) && Minify(m, k) == m[k..]
    decreases |t| - i
  {
    if At(t, i) == '\0' {
      TrackEnd(t, i, m, k);
    } else {
      match PieceAt(t, i)
      case Open => Tracked(t, i, m, k);
      case Drop(next) =>
        PairsNext(t, 0, 0, i, k, next, k);
        ApartIsKept(t, next, m, k);
      case Keep(next) =>
        KeptAgain(t, i, m, k, next);
        if t[i] == '/' {
          ApartBehindSlash(t, next, m, k + 1);
        }
        var k' := k + (next - i);
        ApartIsKept(t, next, m, k');
        KeepOne(m, k, k');
        assert m[k..k'] + m[k'..] == m[k..];
    }
  }

  /** Where one does, it drops something. */
  lemma {:induction false} CollisionIsDropped(t: string, i: nat, m: string, k: nat)
    requires Tracks(t, i, m, k) && !Apart(t, i, false) && Minifiable(m, k)
    ensures |Minify(m, k)| < |m| - k
    decreases |t| - i
  {
    match PieceAt(t, i)
    case Open => Tracked(t, i, m, k);
    case Drop(next) =>
      PairsNext(t, 0, 0, i, k, next, k);
      CollisionIsDropped(t, next, m, k);
    case Keep(next) =>
      KeptAgain(t, i, m, k, next);
      if t[i] == '/' {
        ApartBehindSlash(t, next, m, k + 1);
      }
      if t[i] == '/' && MakesComment(KeptAt(m, k + 1)) {
        assert PieceAt(m, k).Drop?;
      } else {
        KeepOne(m, k, k + (next - i));
        CollisionIsDropped(t, next, m, k + (next - i));
      }
  }

  /** Exactly when a second pass changes nothing. */
  lemma {:induction false} IdempotentExactlyWhen(t: string)
    requires Minifiable(t, 0)
    ensures Apart(t, 0, false) <==>
            Minifiable(Minify(t, 0), 0) && Minify(Minify(t, 0), 0) == Minify(t, 0)
  {
    var m := Minify(t, 0);
    if Apart(t, 0, false) {
      ApartIsKept(t, 0, m, 0);
      assert m[0..] == m;
    } else if Minifiable(m, 0) {
      CollisionIsDropped(t, 0, m, 0);
    }
  }

  /** A stray slash can meet another. */
  lemma {:induction false} StraySlashes()
    ensures Minifiable("/ /", 0) && Minify("/ /", 0) == "//"
    ensures Minifiable("//", 0) && Minify("//", 0) == ""
  {
    var t := "/ /";
    assert Minify(t, 3) == "";
    assert PieceAt(t, 2) == Keep(3) && t[2..3] == "/";
    assert Minify(t, 2) == "/" + "";
    assert PieceAt(t, 1) == Drop(2);
    assert Minify(t, 1) == "/";
    assert PieceAt(t, 0) == Keep(1) && t[0..1] == "/";
    assert Minify(t, 0) == "/" + "/";
    var s := "//";
    assert LineEnd(s, 2) == 2;
    assert LineEnd(s, 1) == 2;
    assert Minify(s, 2) == "";
  }
}
