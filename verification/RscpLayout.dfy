/**
 Where things stand in the text of an RSCP message, and what is read from any text
 that is split into lines.
 */
module RscpLayout {
  import opened CStrings
  import opened RscpText

  // ----- the order of the keys -----

  predicate DiffersFirst(a: string, b: string, k: nat) {
    k < |a| && k < |b| && a[..k] == b[..k] && a[k] != b[k]
  }

  /** `a` comes before `b` in a dictionary: it is a proper prefix, or the first characters
      that differ are in that order. */
  ghost predicate ComesBefore(a: string, b: string) {
    || a < b
    || exists k: nat :: DiffersFirst(a, b, k) && a[k] < b[k]
  }

  lemma DiffersLater(a: string, b: string, k: nat)
    requires a != "" && b != "" && a[0] == b[0]
    ensures DiffersFirst(a[1..], b[1..], k) <==> DiffersFirst(a, b, k + 1)
  {
    if k + 1 < |a| && k + 1 < |b| {
      assert a[..k + 1] == [a[0]] + a[1..][..k] && b[..k + 1] == [b[0]] + b[1..][..k];
      assert a[..k + 1][1..] == a[1..][..k] && b[..k + 1][1..] == b[1..][..k];
    }
  }

  lemma FirstAgrees(a: string, b: string, k: nat)
    requires DiffersFirst(a, b, k) && k > 0
    ensures a[0] == b[0]
  {
    assert a[..k][0] == a[0] && b[..k][0] == b[0];
  }

  lemma {:induction false} LessMeansBefore(a: string, b: string)
    requires Less(a, b)
    ensures ComesBefore(a, b)
  {
    if a == "" {
      assert a < b;
    } else if a[0] != b[0] {
      assert DiffersFirst(a, b, 0) && a[0] < b[0];
    } else {
      LessMeansBefore(a[1..], b[1..]);
      assert a == [a[0]] + a[1..] && b == [b[0]] + b[1..];
      if !(a[1..] < b[1..]) {
        var k: nat :| DiffersFirst(a[1..], b[1..], k) && a[1..][k] < b[1..][k];
        DiffersLater(a, b, k);
        assert a[k + 1] < b[k + 1];
      }
    }
  }

  lemma {:induction false} BeforeMeansLess(a: string, b: string)
    requires ComesBefore(a, b)
    ensures Less(a, b)
  {
    if a != "" && a[0] == b[0] {
      if a < b {
        assert a[1..] < b[1..];
      } else {
        var k: nat :| DiffersFirst(a, b, k) && a[k] < b[k];
        DiffersLater(a, b, k - 1);
        assert a[1..][k - 1] < b[1..][k - 1];
      }
      BeforeMeansLess(a[1..], b[1..]);
    } else if a != "" && !(a < b) {
      var k: nat :| DiffersFirst(a, b, k) && a[k] < b[k];
      if k > 0 {
        FirstAgrees(a, b, k);
      }
    }
  }

  /** The map's order is that of a dictionary. */
  lemma LessExactlyWhen(a: string, b: string)
    ensures Less(a, b) <==> ComesBefore(a, b)
  {
    if Less(a, b) {
      LessMeansBefore(a, b);
    }
    if ComesBefore(a, b) {
      BeforeMeansLess(a, b);
    }
  }

  // ----- the places of the lines -----

  /** Where line `k` starts: behind the request, its newline, and each line before it
      with a colon, a space and a newline. */
  function Start(request: string, lines: seq<Line>, k: nat): nat
    requires k <= |lines|
  {
    if k == 0 then |request| + 1
    else Start(request, lines, k - 1) + |lines[k - 1].id| + |lines[k - 1].data| + 3
  }

  /** Text `p` stands in `t` at `i`. */
  predicate StandsAt(t: string, i: nat, p: string) {
    i + |p| <= |t| && t[i..i + |p|] == p
  }

  lemma Peel(t: string, i: nat, before: string, p: string, rest: string)
    requires t == before + (p + rest) && i == |before|
    ensures StandsAt(t, i, p) && t == (before + p) + rest && |before + p| == i + |p|
  {
  }

  lemma {:induction false} LinesSplit(lines: seq<Line>, k: nat)
    requires k < |lines|
    ensures LinesText(lines) == LinesText(lines[..k]) + (LineText(lines[k]) + "\n") + LinesText(lines[k + 1..])
  {
    if k > 0 {
      LinesSplit(lines[1..], k - 1);
      assert lines[..k][1..] == lines[1..][..k - 1] && lines[1..][k..] == lines[k + 1..];
    }
  }

  lemma {:induction false} LinesEnd(request: string, lines: seq<Line>, k: nat)
    requires k <= |lines|
    ensures Start(request, lines, k) == |request| + 1 + |LinesText(lines[..k])|
  {
    if k > 0 {
      LinesEnd(request, lines, k - 1);
      LinesSplit(lines[..k], k - 1);
      assert lines[..k][..k - 1] == lines[..k - 1] && lines[..k][k..] == [];
    }
  }

  /** The request stands first, ended by a newline; an empty line ends the text. */
  lemma RequestStandsFirst(request: string, lines: seq<Line>)
    ensures var t := Render(request, lines);
            && StandsAt(t, 0, request) && t[|request|] == '\n'
            && |t| == Start(request, lines, |lines|) + 1 && t[|t| - 1] == '\n'
  {
    LinesEnd(request, lines, |lines|);
    assert lines[..|lines|] == lines;
    assert Render(request, lines) == "" + (request + ("\n" + LinesText(lines) + "\n"));
    Peel(Render(request, lines), 0, "", request, "\n" + LinesText(lines) + "\n");
  }

  lemma NestLines(x: string, p: string, q: string, r: string, end: string)
    ensures x + (p + q + r) + end == (x + p) + (q + (r + end))
  {
  }

  lemma NestPieces(a: string, b: string, c: string, d: string, after: string)
    ensures a + b + c + d + after == a + (b + (c + (d + after)))
  {
  }

  lemma LineInside(request: string, lines: seq<Line>, k: nat, before: string, after: string)
    requires k < |lines| && before == request + "\n" + LinesText(lines[..k])
    requires after == LinesText(lines[k + 1..]) + "\n"
    requires LinesText(lines) == LinesText(lines[..k]) + (LineText(lines[k]) + "\n") + LinesText(lines[k + 1..])
    ensures Render(request, lines) == before + (lines[k].id + (": " + (lines[k].data + ("\n" + after))))
  {
    NestLines(request + "\n", LinesText(lines[..k]), LineText(lines[k]) + "\n", LinesText(lines[k + 1..]), "\n");
    NestPieces(lines[k].id, ": ", lines[k].data, "\n", after);
  }

  lemma FourPieces(t: string, i: nat, before: string, a: string, b: string, c: string, d: string, after: string)
    requires t == before + (a + (b + (c + (d + after)))) && i == |before|
    ensures && StandsAt(t, i, a) && StandsAt(t, i + |a|, b)
            && StandsAt(t, i + |a| + |b|, c) && StandsAt(t, i + |a| + |b| + |c|, d)
  {
    Peel(t, |before|, before, a, b + (c + (d + after)));
    Peel(t, |before + a|, before + a, b, c + (d + after));
    Peel(t, |before + a + b|, before + a + b, c, d + after);
    Peel(t, |before + a + b + c|, before + a + b + c, d, after);
  }

  lemma AroundLine(request: string, lines: seq<Line>, k: nat) returns (before: string, after: string)
    requires k < |lines|
    ensures |before| == Start(request, lines, k)
    ensures Render(request, lines) == before + (lines[k].id + (": " + (lines[k].data + ("\n" + after))))
  {
    before, after := request + "\n" + LinesText(lines[..k]), LinesText(lines[k + 1..]) + "\n";
    LinesSplit(lines, k);
    LinesEnd(request, lines, k);
    LineInside(request, lines, k, before, after);
  }

  /** Each line stands at its place: id, colon, space, data, newline. */
  lemma LineStandsAt(request: string, lines: seq<Line>, k: nat, t: string, i: nat, l: Line)
    requires k < |lines| && t == Render(request, lines) && i == Start(request, lines, k) && l == lines[k]
    ensures StandsAt(t, i, l.id) && StandsAt(t, i + |l.id|, ": ")
    ensures StandsAt(t, i + |l.id| + 2, l.data) && StandsAt(t, i + |l.id| + 2 + |l.data|, "\n")
  {
    var before, after := AroundLine(request, lines, k);
    FourPieces(t, i, before, l.id, ": ", l.data, "\n", after);
  }

  lemma {:induction false} StartsGrow(request: string, lines: seq<Line>, i: nat, j: nat)
    requires i < j <= |lines|
    ensures Start(request, lines, i) < Start(request, lines, j)
  {
    if i < j - 1 {
      StartsGrow(request, lines, i, j - 1);
    }
  }

  lemma {:induction false} NotItself(a: string)
    ensures !Less(a, a)
  {
    if a != "" {
      NotItself(a[1..]);
    }
  }

  /** In any content a line stands before another exactly if its id comes first in a
      dictionary. */
  lemma {:induction false} SmallerStandsFirst(request: string, lines: seq<Line>, i: nat, j: nat)
    requires Sorted(lines) && i < |lines| && j < |lines|
    ensures Start(request, lines, i) < Start(request, lines, j) <==> ComesBefore(lines[i].id, lines[j].id)
  {
    LessExactlyWhen(lines[i].id, lines[j].id);
    if i < j {
      StartsGrow(request, lines, i, j);
    } else if j < i {
      StartsGrow(request, lines, j, i);
      LessIsStrict(lines[j].id, lines[i].id);
    } else {
      NotItself(lines[i].id);
    }
  }

  // ----- the lines of any text -----

  lemma FindSkips(a: string, b: string, c: char)
    requires c !in a
    ensures Find(a + b, c) == |a| + Find(b, c)
  {
    var i := Find(b, c);
    assert i < |b| ==> (a + b)[|a| + i] == b[i];
    forall k | 0 <= k < |a| + i ensures (a + b)[k] != c {
      if k >= |a| {
        assert (a + b)[k] == b[k - |a|];
      } else {
        assert (a + b)[k] == a[k] && a[k] in a;
      }
    }
    FindIs(a + b, c, |a| + i);
  }

  lemma {:induction false} SkipMore(a: string, b: string)
    ensures SkipBreaks(a) != "" ==> SkipBreaks(a + b) == SkipBreaks(a) + b
    ensures SkipBreaks(a) == "" ==> SkipBreaks(a + b) == SkipBreaks(b)
  {
    if a == "" {
      assert a + b == b;
    } else if a[0] == '\n' {
      assert (a + b)[1..] == a[1..] + b;
      SkipMore(a[1..], b);
    }
  }

  lemma FindInFirst(a: string, b: string, c: char)
    requires Find(a, c) < |a|
    ensures Find(a + b, c) == Find(a, c)
    ensures (a + b)[..Find(a, c)] == a[..Find(a, c)] && (a + b)[Find(a, c)..] == a[Find(a, c)..] + b
  {
    var i := Find(a, c);
    assert forall k :: 0 <= k < i ==> (a + b)[k] == a[k];
    FindIs(a + b, c, i);
  }

  lemma FindBehind(a: string, b: string, c: char)
    requires Find(a, c) == |a| && (b == "" || b[0] == c)
    ensures Find(a + b, c) == |a| && (a + b)[..|a|] == a && (a + b)[|a|..] == b
  {
    FindSkips(a, b, c);
  }

  lemma FirstToken(s: string, r: string, i: nat)
    requires SkipBreaks(s) == r && r != "" && i == Find(r, '\n')
    ensures Tokens(s) == [r[..i]] + Tokens(r[i..])
  {
  }

  lemma SameRest(a: string, b: string)
    requires SkipBreaks(a) == SkipBreaks(b)
    ensures Tokens(a) == Tokens(b)
  {
  }

  lemma SplitInside(a: string, r: string, s: string, rest: string, more: seq<string>)
    requires SkipBreaks(a) == r && SkipBreaks(s) == r + rest && Find(r, '\n') < |r|
    requires Tokens(r[Find(r, '\n')..] + rest) == Tokens(r[Find(r, '\n')..]) + more
    ensures Tokens(s) == Tokens(a) + more
  {
    FindInFirst(r, rest, '\n');
    FirstToken(a, r, Find(r, '\n'));
    FirstToken(s, r + rest, Find(r, '\n'));
  }

  lemma SplitAtEnd(a: string, r: string, s: string, rest: string)
    requires SkipBreaks(a) == r && r != "" && SkipBreaks(s) == r + rest && Find(r, '\n') == |r|
    requires rest != "" && rest[0] == '\n'
    ensures Tokens(s) == Tokens(a) + Tokens(rest)
  {
    FindBehind(r, rest, '\n');
    FirstToken(a, r, |r|);
    FirstToken(s, r + rest, |r|);
    assert r[|r|..] == "" && r[..|r|] == r;
  }

  /** A text is split where a newline stands: the tokens of both parts, in order. */
  lemma {:induction false} TokensSplit(a: string, b: string)
    ensures Tokens(a + ("\n" + b)) == Tokens(a) + Tokens(b)
    decreases |a|
  {
    var r, rest := SkipBreaks(a), "\n" + b;
    SkipMore(a, rest);
    BreakIsSkipped(b);
    if r == "" {
      SameRest(a + rest, rest);
    } else if Find(r, '\n') < |r| {
      TokensSplit(r[Find(r, '\n')..], b);
      SplitInside(a, r, a + rest, rest, Tokens(b));
    } else {
      SplitAtEnd(a, r, a + rest, rest);
    }
  }

  /** And a text without newlines is one token, unless it is empty. */
  lemma OneToken(s: string)
    requires '\n' !in s
    ensures Tokens(s) == if s == "" then [] else [s]
  {
    if s != "" {
      FindIs(s, '\n', |s|);
      assert s[..|s|] == s && s[|s|..] == "";
    }
  }

  lemma {:induction false} TrimBlanks(w: string, s: string)
    requires (forall k :: 0 <= k < |w| ==> StartsBlank(w[k..])) && !StartsBlank(s)
    ensures Trim(w + s) == s
  {
    if w == "" {
      assert w + s == s;
    } else {
      assert w[0..] == w;
      forall k | 0 <= k < |w[1..]| ensures StartsBlank(w[1..][k..]) {
        assert w[1..][k..] == w[k + 1..];
      }
      assert (w + s)[1..] == w[1..] + s;
      TrimBlanks(w[1..], s);
    }
  }

  /** A line is cut at its first colon; the white space behind it is passed over, and
      the data goes up to a newline. */
  lemma LineIsCut(s: string, id: string, w: string, data: string, more: string)
    requires s == id + (":" + (w + (data + more)))
    requires ':' !in id && '\n' !in data && (more == "" || more[0] == '\n')
    requires (forall k :: 0 <= k < |w| ==> StartsBlank(w[k..])) && !StartsBlank(data) && (data == "" ==> more == "")
    ensures ':' in s && ParseLine(s) == Line(id, data)
  {
    var rest := ":" + (w + (data + more));
    assert s[|id|] == ':';
    FindBehind(id, rest, ':');
    assert rest[1..] == w + (data + more);
    assert s[|id| + 1..] == rest[1..];
    TrimBlanks(w, data + more);
    FindBehind(data, more, '\n');
  }

  // ----- entries assigned one after the other -----

  /** The last of the tokens with that id decides. */
  predicate LastFor(tokens: seq<string>, k: nat, id: string)
    requires HaveColons(tokens)
  {
    k < |tokens| && ParseLine(tokens[k]).id == id && forall j :: k < j < |tokens| ==> ParseLine(tokens[j]).id != id
  }

  lemma {:induction false} OthersStay(lines: seq<Line>, tokens: seq<string>, id: string)
    requires Sorted(lines) && HaveColons(tokens)
    requires forall j :: 0 <= j < |tokens| ==> ParseLine(tokens[j]).id != id
    ensures id in AsMap(AssignAll(lines, tokens)) <==> id in AsMap(lines)
    ensures id in AsMap(lines) ==> AsMap(AssignAll(lines, tokens))[id] == AsMap(lines)[id]
    decreases |tokens|
  {
    if tokens != [] {
      var l := ParseLine(tokens[0]);
      AssignIsUpdate(lines, l.id, l.data);
      assert forall j :: 0 <= j < |tokens[1..]| ==> tokens[1..][j] == tokens[j + 1];
      OthersStay(Assign(lines, l.id, l.data), tokens[1..], id);
    }
  }

  /** After loading, an id has the data of the last line with it. */
  lemma {:induction false} LastLineDecides(lines: seq<Line>, tokens: seq<string>, id: string, k: nat)
    requires Sorted(lines) && HaveColons(tokens) && LastFor(tokens, k, id)
    ensures id in AsMap(AssignAll(lines, tokens))
    ensures AsMap(AssignAll(lines, tokens))[id] == ParseLine(tokens[k]).data
    decreases |tokens|
  {
    var l := ParseLine(tokens[0]);
    AssignIsUpdate(lines, l.id, l.data);
    var more := Assign(lines, l.id, l.data);
    assert forall j :: 0 <= j < |tokens[1..]| ==> tokens[1..][j] == tokens[j + 1];
    if k == 0 {
      OthersStay(more, tokens[1..], id);
    } else {
      LastLineDecides(more, tokens[1..], id, k - 1);
    }
  }

  /** What loading a text gives: its first token as the request, and for each id of a
      later one the data of the last with it. */
  lemma {:induction false} LoadGives(s: string, id: string, k: nat)
    requires Loadable(s)
    ensures Tokens(s) == [] ==> Load(s) == Content(Nothing, [])
    ensures Tokens(s) != [] ==> Load(s).request == Some(Tokens(s)[0])
    ensures Tokens(s) != [] && LastFor(Tokens(s)[1..], k, id) ==>
              id in AsMap(Load(s).lines) && AsMap(Load(s).lines)[id] == ParseLine(Tokens(s)[1..][k]).data
  {
    if Tokens(s) != [] && LastFor(Tokens(s)[1..], k, id) {
      LastLineDecides([], Tokens(s)[1..], id, k);
    }
  }
}
