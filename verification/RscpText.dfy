/**
 The text of an RSCP message (`RSCPContent` in `src/ServerComm.cpp`): a request
 line, one line for each entry of a map, and an empty line; and what is loaded
 from such a text.
 */
module RscpText {
  import opened CStrings

  // ----- the map -----

  datatype Line = Line(id: string, data: string)

  /** The order of the keys. */
  predicate Less(a: string, b: string) {
    b != "" && (a == "" || a[0] < b[0] || (a[0] == b[0] && Less(a[1..], b[1..])))
  }

  lemma {:induction false} LessIsTotal(a: string, b: string)
    ensures Less(a, b) || a == b || Less(b, a)
  {
    if a != "" && b != "" && a[0] == b[0] {
      LessIsTotal(a[1..], b[1..]);
      assert a == [a[0]] + a[1..] && b == [b[0]] + b[1..];
    }
  }

  lemma {:induction false} LessIsStrict(a: string, b: string)
    requires Less(a, b)
    ensures a != b && !Less(b, a)
  {
    if a != "" && a[0] == b[0] {
      LessIsStrict(a[1..], b[1..]);
    }
  }

  lemma {:induction false} LessIsTransitive(a: string, b: string, c: string)
    requires Less(a, b) && Less(b, c)
    ensures Less(a, c)
  {
    if a != "" && a[0] == b[0] && b[0] == c[0] {
      LessIsTransitive(a[1..], b[1..], c[1..]);
    }
  }

  /** The entries in the order the map is walked. */
  predicate Sorted(lines: seq<Line>) {
    forall i, j :: 0 <= i < j < |lines| ==> Less(lines[i].id, lines[j].id)
  }

  /** The map's assignment: an entry's data is replaced, or the entry put in its place. */
  function Assign(lines: seq<Line>, id: string, data: string): (r: seq<Line>)
    ensures |r| > 0 && (r[0].id == id || (lines != [] && r[0].id == lines[0].id))
  {
    if lines == [] || Less(id, lines[0].id) then [Line(id, data)] + lines
    else if lines[0].id == id then [Line(id, data)] + lines[1..]
    else [lines[0]] + Assign(lines[1..], id, data)
  }

  /** The entries as a mathematical map. */
  function AsMap(lines: seq<Line>): map<string, string> {
    if lines == [] then map[] else AsMap(lines[1..])[lines[0].id := lines[0].data]
  }

  lemma {:induction false} KeysAreIds(lines: seq<Line>, id: string)
    ensures id in AsMap(lines) <==> exists k :: 0 <= k < |lines| && lines[k].id == id
  {
    if lines != [] {
      KeysAreIds(lines[1..], id);
      if k :| 0 <= k < |lines| && lines[k].id == id {
        assert k > 0 ==> lines[1..][k - 1].id == id;
      }
      if k :| 0 <= k < |lines[1..]| && lines[1..][k].id == id {
        assert lines[k + 1].id == id;
      }
    }
  }

  /** The first key is smaller than the others. */
  lemma FirstIsLeast(lines: seq<Line>)
    requires Sorted(lines) && lines != []
    ensures Sorted(lines[1..]) && lines[0].id !in AsMap(lines[1..])
    ensures forall k :: 0 <= k < |lines[1..]| ==> Less(lines[0].id, lines[1..][k].id)
  {
    KeysAreIds(lines[1..], lines[0].id);
    forall k | 0 <= k < |lines[1..]| ensures Less(lines[0].id, lines[1..][k].id) {
      assert lines[1..][k] == lines[k + 1];
    }
    if lines[0].id in AsMap(lines[1..]) {
      var k :| 0 <= k < |lines[1..]| && lines[1..][k].id == lines[0].id;
      LessIsStrict(lines[0].id, lines[1..][k].id);
    }
  }

  lemma SortedCons(l: Line, rest: seq<Line>)
    requires Sorted(rest) && (rest != [] ==> Less(l.id, rest[0].id))
    ensures Sorted([l] + rest)
  {
    var all := [l] + rest;
    forall i, j | 0 <= i < j < |all| ensures Less(all[i].id, all[j].id) {
      if i == 0 && j > 1 {
        LessIsTransitive(l.id, rest[0].id, rest[j - 1].id);
      }
    }
  }

  /** Assigning keeps the order and does what a map does. */
  lemma {:induction false} AssignIsUpdate(lines: seq<Line>, id: string, data: string)
    requires Sorted(lines)
    ensures Sorted(Assign(lines, id, data))
    ensures AsMap(Assign(lines, id, data)) == AsMap(lines)[id := data]
  {
    if lines == [] {
    } else if Less(id, lines[0].id) {
      SortedCons(Line(id, data), lines);
      assert ([Line(id, data)] + lines)[1..] == lines;
    } else if lines[0].id == id {
      FirstIsLeast(lines);
      assert ([Line(id, data)] + lines[1..])[1..] == lines[1..];
      if |lines| > 1 {
        assert lines[1..][0] == lines[1];
      }
      SortedCons(Line(id, data), lines[1..]);
    } else {
      FirstIsLeast(lines);
      LessIsTotal(id, lines[0].id);
      AssignIsUpdate(lines[1..], id, data);
      var rest := Assign(lines[1..], id, data);
      assert ([lines[0]] + rest)[1..] == rest;
      SortedCons(lines[0], rest);
    }
  }

  lemma SameFirst(a: seq<Line>, b: seq<Line>)
    requires Sorted(a) && Sorted(b) && AsMap(a) == AsMap(b) && a != [] && b != []
    ensures a[0].id == b[0].id
  {
    assert a[0].id in AsMap(b) && b[0].id in AsMap(a);
    KeysAreIds(b, a[0].id);
    KeysAreIds(a, b[0].id);
    var i :| 0 <= i < |b| && b[i].id == a[0].id;
    var j :| 0 <= j < |a| && a[j].id == b[0].id;
    if i > 0 && j > 0 {
      LessIsStrict(b[0].id, b[i].id);
    }
  }

  /** The order of walking is the map's alone. */
  lemma {:induction false} SortedIsCanonical(a: seq<Line>, b: seq<Line>)
    requires Sorted(a) && Sorted(b) && AsMap(a) == AsMap(b)
    ensures a == b
  {
    assert a != [] ==> a[0].id in AsMap(a);
    assert b != [] ==> b[0].id in AsMap(b);
    if a != [] {
      FirstIsLeast(a);
      FirstIsLeast(b);
      SameFirst(a, b);
      assert AsMap(a[1..]) == AsMap(a) - {a[0].id};
      assert AsMap(b[1..]) == AsMap(b) - {b[0].id};
      SortedIsCanonical(a[1..], b[1..]);
      assert a[0].data == AsMap(a)[a[0].id] == b[0].data;
      assert a == [a[0]] + a[1..] && b == [b[0]] + b[1..];
    }
  }

  // ----- rendering -----

  function LineText(l: Line): (s: string)
    ensures ':' in s
  {
    var s := l.id + ": " + l.data;
    assert s[|l.id|] == ':';
    s
  }

  function LinesText(lines: seq<Line>): string {
    if lines == [] then "" else LineText(lines[0]) + "\n" + LinesText(lines[1..])
  }

  function Render(request: string, lines: seq<Line>): string {
    request + "\n" + LinesText(lines) + "\n"
  }

  // ----- a line -----

  /** `isspace` */
  predicate IsSpace(c: char) {
    c == ' ' || '\t' <= c <= '\r'
  }

  function Find(s: string, c: char): (i: nat)
    ensures i <= |s| && (i < |s| ==> s[i] == c) && forall k :: 0 <= k < i ==> s[k] != c
  {
    if s == "" || s[0] == c then 0 else 1 + Find(s[1..], c)
  }

  function Trim(s: string): (r: string)
    ensures |r| <= |s| && (r != "" ==> !IsSpace(r[0]))
  {
    if s == "" || !IsSpace(s[0]) then s else Trim(s[1..])
  }

  /** What `addLineString` makes of a line with a colon in it. */
  function ParseLine(s: string): Line
    requires ':' in s
  {
    var i := Find(s, ':');
    assert i < |s|;
    var rest := Trim(s[i + 1..]);
    Line(s[..i], rest[..Find(rest, '\n')])
  }

  predicate NoBreak(s: string) {
    '\n' !in s
  }

  /** The first character is a space, or one of tab, line feed, vertical tab, form feed
      and carriage return. */
  predicate StartsBlank(s: string) {
    s != "" && (s[0] as int == 32 || 9 <= s[0] as int <= 13)
  }

  lemma FindIs(s: string, c: char, i: nat)
    requires i <= |s| && (i < |s| ==> s[i] == c) && forall k :: 0 <= k < i ==> s[k] != c
    ensures Find(s, c) == i
  {
  }

  /** What a line must be like to be read back as it was. */
  predicate Faithful(l: Line) {
    ':' !in l.id && !StartsBlank(l.data)
  }

  predicate AllFaithful(lines: seq<Line>) {
    forall k :: 0 <= k < |lines| ==> Faithful(lines[k])
  }

  /** A rendered line is read back as it was exactly when its id has no colon and
      its data does not start with white space. */
  lemma LineReadsBack(l: Line)
    requires NoBreak(l.id) && NoBreak(l.data)
    ensures ':' in LineText(l) && NoBreak(LineText(l)) && LineText(l) != ""
    ensures ParseLine(LineText(l)) == l <==> Faithful(l)
    ensures ParseLine(LineText(l)) == Line(l.id[..Find(l.id, ':')], ParseLine(LineText(l)).data)
  {
    var s := LineText(l);
    assert s[|l.id|] == ':';
    var i := Find(l.id, ':');
    assert i < |l.id| ==> s[i] == l.id[i];
    assert forall k :: 0 <= k < i ==> s[k] == l.id[k];
    FindIs(s, ':', i);
    assert s[..i] == l.id[..i];
    if i == |l.id| {
      assert l.id[..i] == l.id;
      assert s[i + 1..] == " " + l.data;
      assert Trim(s[i + 1..]) == Trim(l.data);
      if l.data != "" && IsSpace(l.data[0]) {
        assert |Trim(l.data)| < |l.data|;
      } else {
        FindIs(l.data, '\n', |l.data|);
        assert l.data[..|l.data|] == l.data;
      }
    }
  }

  // ----- a message -----

  /** Where a run of newlines ends. */
  function SkipBreaks(s: string): (r: string)
    ensures |r| <= |s| && (r != "" ==> r[0] != '\n')
  {
    if s != "" && s[0] == '\n' then SkipBreaks(s[1..]) else s
  }

  /** The tokens `strtok_r` finds between newlines. */
  function Tokens(s: string): seq<string>
    decreases |s|
  {
    var r := SkipBreaks(s);
    if r == "" then []
    else
      var i := Find(r, '\n');
      [r[..i]] + Tokens(r[i..])
  }

  datatype Content = Content(request: CharPtr, lines: seq<Line>)

  predicate HaveColons(tokens: seq<string>) {
    forall k :: 0 <= k < |tokens| ==> ':' in tokens[k]
  }

  /** The lines assigned one after the other. */
  function AssignAll(lines: seq<Line>, tokens: seq<string>): seq<Line>
    requires HaveColons(tokens)
    decreases |tokens|
  {
    if tokens == [] then lines
    else
      var l := ParseLine(tokens[0]);
      AssignAll(Assign(lines, l.id, l.data), tokens[1..])
  }

  /** Every line after the request has a colon; the code runs off a line that has none. */
  predicate Loadable(s: string) {
    Tokens(s) == [] || HaveColons(Tokens(s)[1..])
  }

  function Load(s: string): Content
    requires Loadable(s)
  {
    var tokens := Tokens(s);
    if tokens == [] then Content(Nothing, []) else Content(Some(tokens[0]), AssignAll([], tokens[1..]))
  }

  // ----- rendering and loading -----

  predicate NoBreaks(lines: seq<Line>) {
    forall k :: 0 <= k < |lines| ==> NoBreak(lines[k].id) && NoBreak(lines[k].data)
  }

  function LineTexts(lines: seq<Line>): (r: seq<string>)
    ensures |r| == |lines| && HaveColons(r) && forall k :: 0 <= k < |r| ==> r[k] == LineText(lines[k])
  {
    if lines == [] then [] else [LineText(lines[0])] + LineTexts(lines[1..])
  }

  lemma BreakIsSkipped(rest: string)
    ensures Tokens("\n" + rest) == Tokens(rest)
  {
    assert ("\n" + rest)[1..] == rest;
  }

  lemma {:induction false} TokensOfLine(t: string, rest: string)
    requires NoBreak(t) && t != ""
    ensures Tokens(t + "\n" + rest) == [t] + Tokens(rest)
  {
    var s := t + "\n" + rest;
    assert s[0] == t[0] && s[|t|] == '\n' && s[..|t|] == t && s[|t|..] == "\n" + rest;
    FindIs(s, '\n', |t|);
    BreakIsSkipped(rest);
  }

  lemma {:induction false} TokensOfLines(lines: seq<Line>)
    requires NoBreaks(lines)
    ensures Tokens(LinesText(lines) + "\n") == LineTexts(lines)
  {
    if lines == [] {
      assert LinesText(lines) + "\n" == "\n" + "";
      BreakIsSkipped("");
    } else {
      LineReadsBack(lines[0]);
      var rest := LinesText(lines[1..]) + "\n";
      assert LinesText(lines) + "\n" == LineText(lines[0]) + "\n" + rest;
      TokensOfLine(LineText(lines[0]), rest);
      TokensOfLines(lines[1..]);
    }
  }

  lemma TokensOfMessage(request: string, lines: seq<Line>)
    requires NoBreak(request) && NoBreaks(lines)
    ensures Tokens(Render(request, lines)) == (if request == "" then [] else [request]) + LineTexts(lines)
  {
    var rest := LinesText(lines) + "\n";
    assert Render(request, lines) == request + "\n" + rest;
    TokensOfLines(lines);
    if request == "" {
      assert request + "\n" + rest == "\n" + rest;
      BreakIsSkipped(rest);
    } else {
      TokensOfLine(request, rest);
    }
  }

  /** The lines as each is read back. */
  function ReadBack(lines: seq<Line>): (r: seq<Line>)
    ensures |r| == |lines| && forall k :: 0 <= k < |r| ==> r[k] == ParseLine(LineText(lines[k]))
  {
    if lines == [] then [] else [ParseLine(LineText(lines[0]))] + ReadBack(lines[1..])
  }

  lemma {:induction false} AssignBehind(lines: seq<Line>, l: Line)
    requires forall k :: 0 <= k < |lines| ==> Less(lines[k].id, l.id)
    ensures Assign(lines, l.id, l.data) == lines + [l]
  {
    if lines != [] {
      LessIsStrict(lines[0].id, l.id);
      AssignBehind(lines[1..], l);
    }
  }

  predicate ColonFree(lines: seq<Line>) {
    forall k :: 0 <= k < |lines| ==> ':' !in lines[k].id
  }

  lemma Regroup(a: seq<Line>, l: Line, b: seq<Line>)
    ensures a + ([l] + b) == a + [l] + b
  {
  }

  lemma SameIdsSorted(before: seq<Line>, lines: seq<Line>, l: Line)
    requires lines != [] && l.id == lines[0].id && Sorted(before + lines)
    ensures Sorted(before + [l] + lines[1..])
    ensures forall k :: 0 <= k < |before| ==> Less(before[k].id, l.id)
  {
    var a, b := before + lines, before + [l] + lines[1..];
    assert forall k :: 0 <= k < |a| ==> a[k].id == b[k].id;
    assert a[|before|] == lines[0];
    assert forall k :: 0 <= k < |before| ==> a[k] == before[k];
  }

  lemma NextAssigned(before: seq<Line>, lines: seq<Line>)
    requires NoBreaks(lines) && ColonFree(lines) && Sorted(before + lines) && lines != []
    ensures var l := ParseLine(LineText(lines[0]));
            Assign(before, l.id, l.data) == before + [l] && Sorted(before + [l] + lines[1..])
  {
    LineReadsBack(lines[0]);
    var l := ParseLine(LineText(lines[0]));
    FindIs(lines[0].id, ':', |lines[0].id|);
    SameIdsSorted(before, lines, l);
    AssignBehind(before, l);
  }

  /** Lines read in the order of their ids end up in that order. */
  lemma {:induction false} AssignedInOrder(before: seq<Line>, lines: seq<Line>)
    requires NoBreaks(lines) && ColonFree(lines) && Sorted(before + lines)
    ensures AssignAll(before, LineTexts(lines)) == before + ReadBack(lines)
    decreases |lines|
  {
    if lines == [] {
      assert before + ReadBack(lines) == before;
    } else {
      var l := ParseLine(LineText(lines[0]));
      NextAssigned(before, lines);
      AssignedInOrder(before + [l], lines[1..]);
      assert LineTexts(lines)[1..] == LineTexts(lines[1..]);
      Regroup(before, l, ReadBack(lines[1..]));
    }
  }

  lemma {:induction false} AssignColonFree(lines: seq<Line>, id: string, data: string)
    requires ColonFree(lines) && ':' !in id
    ensures ColonFree(Assign(lines, id, data))
  {
    if lines != [] && !Less(id, lines[0].id) && lines[0].id != id {
      AssignColonFree(lines[1..], id, data);
    }
  }

  /** No id that is read has a colon. */
  lemma {:induction false} ReadIdsAreColonFree(lines: seq<Line>, tokens: seq<string>)
    requires HaveColons(tokens) && ColonFree(lines)
    ensures ColonFree(AssignAll(lines, tokens))
    decreases |tokens|
  {
    if tokens != [] {
      var l := ParseLine(tokens[0]);
      AssignColonFree(lines, l.id, l.data);
      ReadIdsAreColonFree(Assign(lines, l.id, l.data), tokens[1..]);
    }
  }

  lemma ReadBackIs(lines: seq<Line>)
    requires NoBreaks(lines)
    ensures ReadBack(lines) == lines <==> AllFaithful(lines)
  {
    forall k | 0 <= k < |lines| ensures ReadBack(lines)[k] == lines[k] <==> Faithful(lines[k]) {
      LineReadsBack(lines[k]);
    }
  }

  /** Lines are read back as the same map exactly when each is read back as it was. */
  lemma LinesReadBack(lines: seq<Line>)
    requires Sorted(lines) && NoBreaks(lines)
    ensures AssignAll([], LineTexts(lines)) == lines <==> AllFaithful(lines)
  {
    if ColonFree(lines) {
      assert [] + lines == lines;
      AssignedInOrder([], lines);
      assert [] + ReadBack(lines) == ReadBack(lines);
      ReadBackIs(lines);
    } else {
      ReadIdsAreColonFree([], LineTexts(lines));
      var k :| 0 <= k < |lines| && ':' in lines[k].id;
      assert !Faithful(lines[k]);
    }
  }

  /** A rendered message loads back to the same request and map exactly when the
      request is not empty, no id has a colon and no data starts with white space. */
  lemma LoadsBack(request: string, lines: seq<Line>)
    requires NoBreak(request) && NoBreaks(lines) && Sorted(lines)
    ensures Loadable(Render(request, lines))
    ensures Load(Render(request, lines)) == Content(Some(request), lines) <==>
            request != "" && AllFaithful(lines)
  {
    TokensOfMessage(request, lines);
    LinesReadBack(lines);
    if request != "" {
      assert ([request] + LineTexts(lines))[1..] == LineTexts(lines);
    } else {
      assert [] + LineTexts(lines) == LineTexts(lines);
      if lines != [] {
        LineReadsBack(lines[0]);
      }
    }
  }

  // ----- the end of a message -----

  predicate EndsTwice(s: string) {
    |s| >= 2 && s[|s| - 2] == '\n' && s[|s| - 1] == '\n'
  }

  /** Where a line break stands, the line before it is not empty. */
  lemma {:induction false} LinesHaveNoGap(lines: seq<Line>, k: nat)
    requires NoBreaks(lines) && k < |LinesText(lines)| && LinesText(lines)[k] == '\n'
    ensures k > 0 && LinesText(lines)[k - 1] != '\n'
  {
    LineReadsBack(lines[0]);
    var t := LineText(lines[0]);
    var all, rest := LinesText(lines), LinesText(lines[1..]);
    assert all == t + "\n" + rest;
    assert forall i :: 0 <= i < |t| ==> all[i] == t[i];
    if k > |t| {
      assert all[k] == rest[k - |t| - 1];
      LinesHaveNoGap(lines[1..], k - |t| - 1);
      assert all[k - 1] == rest[k - |t| - 2];
    }
  }

  lemma {:induction false} LastIsBreak(lines: seq<Line>)
    ensures lines != [] ==> LinesText(lines) != "" && LinesText(lines)[|LinesText(lines)| - 1] == '\n'
  {
    if lines != [] {
      LastIsBreak(lines[1..]);
    }
  }

  /** The receiving loop's test holds of no proper part of a message, only of the whole. */
  lemma EndsOnlyAtTheEnd(request: string, lines: seq<Line>, n: nat)
    requires NoBreak(request) && NoBreaks(lines) && request != "" && n <= |Render(request, lines)|
    ensures EndsTwice(Render(request, lines)[..n]) <==> n == |Render(request, lines)|
  {
    var s, text := Render(request, lines), LinesText(lines);
    assert s == request + "\n" + text + "\n";
    assert forall i :: 0 <= i < |request| ==> s[i] == request[i];
    assert s[|request|] == '\n' && s[|s| - 1] == '\n';
    assert forall i :: 0 <= i < |text| ==> s[|request| + 1 + i] == text[i];
    if n == |s| {
      assert s[..n] == s;
      LastIsBreak(lines);
    } else if EndsTwice(s[..n]) {
      var k := n - 1;
      assert s[k] == '\n' && s[k - 1] == '\n';
      assert k > |request|;
      LinesHaveNoGap(lines, k - |request| - 1);
    }
  }
}
