/**
 The in-place minifier of `src/cJSON/cJSON.c`, and what it makes of a text given
 as a sequence of tokens with white space and comments between them.
 */
module JsonMinifier {
  import opened CStrings
  import opened JsonText
  import opened JsonMinify

  /** From `json` on the buffer still holds the original text. */
  ghost predicate Unread(a: array<char>, text: string, json: nat)
    reads a
  {
    && json <= |text| < a.Length && a[|text|] == '\0'
    && forall k :: json <= k < |text| ==> a[k] == text[k]
  }

  method PassLine(a: array<char>, json: nat, ghost text: string) returns (next: nat)
    requires Unread(a, text, json) && json < |text| && text[json] == '/'
    ensures next == LineEnd(text, json + 1)
  {
    next := json;
    while a[next] != '\0' && a[next] != '\n'
      invariant json <= next <= |text|
      invariant next == json || LineEnd(text, json + 1) == LineEnd(text, next)
      decreases |text| - next
    {
      next := next + 1;
    }
  }

  method PassBlock(a: array<char>, json: nat, ghost text: string) returns (next: nat)
    requires Unread(a, text, json) && At(text, BlockEnd(text, json)) != '\0'
    ensures next == BlockEnd(text, json) + 2
  {
    next := json;
    while a[next] != '\0' && !(a[next] == '*' && a[next + 1] == '/')
      invariant json <= next <= |text| && BlockEnd(text, json) == BlockEnd(text, next)
      decreases |text| - next
    {
      next := next + 1;
    }
    next := next + 2;
  }

  /** `text[json..json']` has been moved down to `into`; only those places, and
      places already read, differ from `before`. */
  ghost predicate Moved(a: array<char>, before: seq<char>, text: string, into: nat, json: nat, json': nat)
    reads a
  {
    && into <= json <= json' && |before| == a.Length && Unread(a, text, json')
    && (forall k :: into <= k < into + (json' - json) ==> a[k] == text[k + (json - into)])
    && (forall k :: 0 <= k < into || |text| < k < a.Length ==> a[k] == before[k])
  }

  /** `*into++ = *json++` */
  method MoveChar(a: array<char>, ghost before: seq<char>, ghost text: string, ghost into: nat, ghost json: nat,
                  dest: nat, src: nat)
    requires Moved(a, before, text, into, json, src) && src < |text| && dest == into + (src - json)
    modifies a
    ensures Moved(a, before, text, into, json, src + 1)
  {
    a[dest] := a[src];
  }

  /** One character of a string, or a backslash and the character after it. */
  method MoveStringChar(a: array<char>, ghost before: seq<char>, ghost text: string, ghost into: nat, ghost json: nat,
                        dest: nat, src: nat)
    returns (dest': nat, src': nat)
    requires Moved(a, before, text, into, json, src) && src < |text| && dest == into + (src - json)
    requires text[src] != '\0' && text[src] != '\"' && StringEnd(text, src) < |text|
    modifies a
    ensures src < src' <= |text| && Moved(a, before, text, into, json, src') && dest' == into + (src' - json)
    ensures StringEnd(text, src') == StringEnd(text, src)
  {
    dest', src' := dest, src;
    if a[src'] == '\\' {
      MoveChar(a, before, text, into, json, dest', src');
      dest', src' := dest' + 1, src' + 1;
    }
    MoveChar(a, before, text, into, json, dest', src');
    dest', src' := dest' + 1, src' + 1;
  }

  /** A string literal is moved down as it is, quotes and escapes included. */
  method MoveLiteral(a: array<char>, into: nat, json: nat, ghost text: string) returns (into': nat, json': nat)
    requires into <= json && Unread(a, text, json) && json < |text| && text[json] == '\"'
    requires StringEnd(text, json + 1) < |text|
    modifies a
    ensures json' == StringEnd(text, json + 1) + 1 && into' == into + (json' - json)
    ensures Moved(a, old(a[..]), text, into, json, json')
  {
    ghost var before := a[..];
    into', json' := into, json;
    MoveChar(a, before, text, into, json, into', json');
    into', json' := into' + 1, json' + 1;
    while a[json'] != '\0' && a[json'] != '\"'
      invariant json < json' <= |text| && into' == into + (json' - json)
      invariant StringEnd(text, json') == StringEnd(text, json + 1)
      invariant Moved(a, before, text, into, json, json')
      decreases |text| - json'
    {
      into', json' := MoveStringChar(a, before, text, into, json, into', json');
    }
    MoveChar(a, before, text, into, json, into', json');
    into', json' := into' + 1, json' + 1;
  }

  /** With the scanner at `json`, the first `into` characters are out. */
  ghost predicate Reached(text: string, into: nat, json: nat) {
    && into <= json <= |text| && Minifiable(text, 0) && Minifiable(text, json)
    && into <= |Minify(text, 0)| && Minify(text, 0)[into..] == Minify(text, json)
  }

  ghost predicate Progress(a: array<char>, before: seq<char>, text: string, into: nat, json: nat)
    reads a
  {
    && Reached(text, into, json) && |before| == a.Length && Unread(a, text, json)
    && (forall k :: 0 <= k < into ==> a[k] == Minify(text, 0)[k])
    && (forall k :: |text| < k < a.Length ==> a[k] == before[k])
  }

  lemma ProgressDrop(a: array<char>, before: seq<char>, text: string, into: nat, json: nat, next: nat)
    requires Progress(a, before, text, into, json) && At(text, json) != '\0' && PieceAt(text, json) == Drop(next)
    ensures Progress(a, before, text, into, next)
  {
  }

  lemma ReachedKeep(text: string, into: nat, json: nat, next: nat)
    requires Reached(text, into, json) && At(text, json) != '\0' && PieceAt(text, json) == Keep(next)
    ensures Reached(text, into + (next - json), next)
    ensures forall k :: into <= k < into + (next - json) ==> Minify(text, 0)[k] == text[k + (json - into)]
  {
    var tail := Minify(text, 0)[into..];
    assert tail == text[json..next] + Minify(text, next);
    assert tail[next - json..] == Minify(text, next);
    forall k | into <= k < into + (next - json) ensures Minify(text, 0)[k] == text[k + (json - into)] {
      assert tail[k - into] == text[json..next][k - into];
    }
  }

  method KeepChar(a: array<char>, ghost before: seq<char>, ghost text: string, into: nat, json: nat)
    requires Progress(a, before, text, into, json)
    requires json < |text| && text[json] != '\0' && PieceAt(text, json) == Keep(json + 1)
    modifies a
    ensures Progress(a, before, text, into + 1, json + 1)
  {
    ReachedKeep(text, into, json, json + 1);
    a[into] := a[json];
  }

  method KeepLiteral(a: array<char>, ghost before: seq<char>, ghost text: string, into: nat, json: nat)
    returns (into': nat, json': nat)
    requires Progress(a, before, text, into, json)
    requires json < |text| && text[json] == '\"'
    modifies a
    ensures json < json' && Progress(a, before, text, into', json')
  {
    ghost var next := StringEnd(text, json + 1) + 1;
    assert PieceAt(text, json) == Keep(next);
    ReachedKeep(text, into, json, next);
    into', json' := MoveLiteral(a, into, json, text);
  }

  /** The code: the buffer is left holding the minified text, and nothing is
      written ahead of the read position or past the terminator. */
  method MinifyInPlace(a: array<char>, ghost text: string)
    requires Holds(a, text) && Minifiable(text, 0)
    modifies a
    ensures Holds(a, Minify(text, 0))
    ensures forall k :: |text| < k < a.Length ==> a[k] == old(a[k])
  {
    var into, json := 0, 0;
    ghost var before := a[..];
    assert Minify(text, 0)[0..] == Minify(text, 0);
    while a[json] != '\0'
      invariant 0 <= into <= json <= |text| && Progress(a, before, text, into, json)
      decreases |text| - json
    {
      ghost var piece := PieceAt(text, json);
      if a[json] == ' ' || a[json] == '\t' || a[json] == '\r' || a[json] == '\n' {
        ProgressDrop(a, before, text, into, json, json + 1);
        json := json + 1;
      } else if a[json] == '/' && a[json + 1] == '/' {
        ProgressDrop(a, before, text, into, json, piece.next);
        json := PassLine(a, json, text);
      } else if a[json] == '/' && a[json + 1] == '*' {
        ProgressDrop(a, before, text, into, json, piece.next);
        json := PassBlock(a, json, text);
      } else if a[json] == '\"' {
        into, json := KeepLiteral(a, before, text, into, json);
      } else {
        KeepChar(a, before, text, into, json);
        into, json := into + 1, json + 1;
      }
    }
    Terminate(a, before, text, into, json);
  }

  /** `*into = 0` */
  method Terminate(a: array<char>, ghost before: seq<char>, ghost text: string, into: nat, json: nat)
    requires Progress(a, before, text, into, json) && a[json] == '\0'
    modifies a
    ensures Holds(a, Minify(text, 0)) && forall k :: |text| < k < a.Length ==> a[k] == before[k]
  {
    a[into] := '\0';
  }
}
