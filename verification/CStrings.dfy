/**
 C strings: a text without its terminator, the buffers that hold one, and the
 library routines the program copies them with.
 */
module CStrings {

  predicate CString(s: string) {
    forall k :: 0 <= k < |s| ==> s[k] != '\0'
  }

  /** A pointer to a C string, or null. */
  datatype CharPtr = Nothing | Some(text: string)

  /** The buffer holds the C string `s`. */
  ghost predicate Holds(a: array<char>, s: string)
    reads a
  {
    |s| < a.Length && a[|s|] == '\0' && forall k :: 0 <= k < |s| ==> a[k] == s[k]
  }

  /** The buffer starts with `s`. */
  ghost predicate Written(out: array<char>, s: string)
    reads out
  {
    |s| <= out.Length && forall k :: 0 <= k < |s| ==> out[k] == s[k]
  }

  /** `*ptr2++ = c` */
  method Put(out: array<char>, ptr2: nat, c: char, ghost done: string)
    requires Written(out, done) && ptr2 == |done| < out.Length
    modifies out
    ensures Written(out, done + [c])
  {
    out[ptr2] := c;
  }

  /** `sprintf` or `strcpy` of a known text to the end of what is written. */
  method PutText(out: array<char>, ptr: nat, s: string, ghost done: string)
    requires Written(out, done) && ptr == |done| && ptr + |s| < out.Length
    modifies out
    ensures Written(out, done + s) && out[ptr + |s|] == '\0'
  {
    forall k | 0 <= k < |s| {
      out[ptr + k] := s[k];
    }
    out[ptr + |s|] := '\0';
  }

  method Strdup(s: string) returns (out: array<char>)
    ensures fresh(out) && Holds(out, s) && out.Length == |s| + 1
  {
    out := new char[|s| + 1];
    PutText(out, 0, s, "");
    assert "" + s == s;
  }

  method Strlen(a: array<char>, ghost s: string) returns (n: nat)
    requires Holds(a, s) && CString(s)
    ensures n == |s|
  {
    n := 0;
    while a[n] != '\0'
      invariant 0 <= n <= |s|
      decreases |s| - n
    {
      n := n + 1;
    }
  }

  method Strcpy(out: array<char>, ptr: nat, src: array<char>, ghost s: string, ghost done: string)
    requires out != src && Holds(src, s) && CString(s)
    requires Written(out, done) && ptr == |done| && ptr + |s| < out.Length
    modifies out
    ensures Written(out, done + s) && out[ptr + |s|] == '\0'
  {
    var i := 0;
    while src[i] != '\0'
      invariant 0 <= i <= |s| && Holds(src, s) && Written(out, done + s[..i])
      decreases |s| - i
    {
      out[ptr + i] := src[i];
      i := i + 1;
    }
    assert s[..i] == s;
    out[ptr + i] := '\0';
  }

  // ----- composing a text of known length -----

  function If(fmt: bool, s: string): string {
    if fmt then s else ""
  }

  /** The buffer has room for `text`; `done` of it is written and `rest` is not. */
  ghost predicate Pending(out: array<char>, ptr: nat, done: string, rest: string, text: string)
    reads out
  {
    Written(out, done) && ptr == |done| && text == done + rest && |text| < out.Length
  }

  /** `*ptr++ = c`, when there is something to put. */
  method PutChar(out: array<char>, start: nat, now: bool, c: char, ghost before: string, ghost rest: string,
                   ghost text: string)
    returns (ptr: nat, ghost done: string)
    requires Pending(out, start, before, If(now, [c]) + rest, text)
    modifies out
    ensures Pending(out, ptr, done, rest, text)
  {
    ptr, done := start, before;
    if now {
      Put(out, ptr, c, done);
      ptr, done := ptr + 1, done + [c];
    }
  }

  method PutEntry(out: array<char>, start: nat, entry: array<char>, ghost s: string, ghost before: string,
                  ghost rest: string, ghost text: string)
    returns (ptr: nat, ghost done: string)
    requires entry != out && Holds(entry, s) && CString(s) && Pending(out, start, before, s + rest, text)
    modifies out
    ensures Pending(out, ptr, done, rest, text)
  {
    Strcpy(out, start, entry, s, before);
    var n := Strlen(entry, s);
    ptr, done := start + n, before + s;
  }

  /** `strcpy` of a known text, its terminator included. */
  method PutPiece(out: array<char>, start: nat, s: string, ghost before: string, ghost rest: string, ghost text: string)
    returns (ptr: nat, ghost done: string)
    requires Pending(out, start, before, s + rest, text)
    modifies out
    ensures Pending(out, ptr, done, rest, text) && out[ptr] == '\0'
  {
    PutText(out, start, s, before);
    ptr, done := start + |s|, before + s;
  }
}
