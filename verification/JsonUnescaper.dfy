/**
 The two passes of `parse_string` in `src/cJSON/cJSON.c`: one counts, the other
 writes the unescaped text into a buffer of the size counted.
 */
module JsonUnescaper {
  import opened CStrings
  import opened JsonText
  import opened JsonParse
  import opened JsonStrings

  // ----- the counting pass -----

  /** The counting pass meets no backslash just before the terminator, where it
      would step over it. */
  predicate CountStays(t: string, i: nat)
    requires i <= |t|
    decreases |t| - i
  {
    if EndsString(At(t, i)) then true
    else if t[i] == '\\' then i + 1 < |t| && CountStays(t, i + 2)
    else CountStays(t, i + 1)
  }

  lemma {:induction false} OrdinaryStays(t: string, i: nat, n: nat)
    requires i + n <= |t| && CountStays(t, i + n)
    requires forall k :: i <= k < i + n ==> !EndsString(t[k]) && t[k] != '\\'
    ensures CountStays(t, i)
    decreases n
  {
    if n > 0 {
      OrdinaryStays(t, i + 1, n - 1);
    }
  }

  lemma UnicodeStays(t: string, i: nat)
    requires i + 6 <= |t| && t[i] == '\\' && t[i + 1] == 'u' && FourHex(t, i + 2) && CountStays(t, i + 6)
    ensures CountStays(t, i)
  {
    OrdinaryStays(t, i + 2, 4);
  }

  lemma EscapeStays(t: string, i: nat)
    requires i < |t| && t[i] == '\\' && EscapeAt(t, i).Emit? && CountStays(t, EscapeAt(t, i).next)
    ensures CountStays(t, i)
  {
    if t[i + 1] == 'u' {
      if EscapeAt(t, i).next == i + 12 {
        UnicodeStays(t, i + 6);
      }
      UnicodeStays(t, i);
    }
  }

  /** The counting pass stays in every text the writing pass can read. */
  lemma {:induction false} ReadableStays(t: string, i: nat)
    requires i <= |t| && Unescape(t, i).Text?
    ensures CountStays(t, i)
    decreases |t| - i
  {
    if !EndsString(At(t, i)) {
      if t[i] == '\\' {
        ReadableStays(t, EscapeAt(t, i).next);
        EscapeStays(t, i);
      } else {
        ReadableStays(t, i + 1);
      }
    }
  }

  method CountText(t: string, str: nat) returns (len: nat)
    requires str < |t| && CountStays(t, str + 1)
    ensures len == CountSize(t, str + 1)
  {
    var ptr := str + 1;
    len := 0;
    while At(t, ptr) != '\"' && At(t, ptr) != '\0'
      invariant str < ptr <= |t| && CountStays(t, ptr)
      invariant len + CountSize(t, ptr) == CountSize(t, str + 1)
      decreases |t| - ptr
    {
      len := len + 1;
      var c := At(t, ptr);
      ptr := ptr + 1;
      if c == '\\' {
        ptr := ptr + 1;
      }
    }
  }

  // ----- the writing pass -----

  /** `parse_hex4`: zero where there are not four hexadecimal digits. */
  method ParseHex4(t: string, i: nat) returns (h: nat)
    requires i <= |t|
    ensures h == if FourHex(t, i) then Hex4(t, i) else 0
  {
    h := 0;
    if !IsHex(At(t, i)) {
      return 0;
    }
    h := h + HexValue(At(t, i));
    h := h * 0x10;
    if !IsHex(At(t, i + 1)) {
      return 0;
    }
    h := h + HexValue(At(t, i + 1));
    h := h * 0x10;
    if !IsHex(At(t, i + 2)) {
      return 0;
    }
    h := h + HexValue(At(t, i + 2));
    h := h * 0x10;
    if !IsHex(At(t, i + 3)) {
      return 0;
    }
    h := h + HexValue(At(t, i + 3));
  }

  const FIRST_BYTE_MARK := [0x00, 0x00, 0xC0, 0xE0, 0xF0]

  /** What `(uc | 0x80) & 0xBF` is. */
  function Trail(uc: nat): char {
    (0x80 + uc % 0x40) as char
  }

  /** Appends a code point as UTF-8, its last byte first. */
  method PutCode(out: array<char>, ptr2: nat, code: nat, ghost done: string) returns (next: nat)
    requires 0 < code < 0x110000 && Written(out, done) && ptr2 == |done|
    requires ptr2 + |Utf8(code)| <= out.Length
    modifies out
    ensures Written(out, done + Utf8(code)) && next == ptr2 + |Utf8(code)|
  {
    var uc := code;
    var len := if uc < 0x80 then 1 else if uc < 0x800 then 2 else if uc < 0x10000 then 3 else 4;
    next := ptr2 + len;
    if len >= 4 {
      next := next - 1;
      out[next] := Trail(uc);
      uc := uc / 0x40;
    }
    if len >= 3 {
      next := next - 1;
      out[next] := Trail(uc);
      uc := uc / 0x40;
    }
    if len >= 2 {
      next := next - 1;
      out[next] := Trail(uc);
      uc := uc / 0x40;
    }
    next := next - 1;
    Split(code);
    out[next] := (uc + FIRST_BYTE_MARK[len]) as char;
    next := next + len;
  }

  /** `\u` and four digits, and the other half of a surrogate pair. */
  method ReadUnicode(t: string, i: nat, out: array<char>, ptr2: nat, ghost done: string) returns (ptr: nat, next: nat)
    requires i + 2 <= |t| && t[i] == '\\' && t[i + 1] == 'u' && UnicodeEscape(t, i).Emit?
    requires Written(out, done) && ptr2 == |done| && ptr2 + |UnicodeEscape(t, i).text| <= out.Length
    modifies out
    ensures ptr == UnicodeEscape(t, i).next
    ensures Written(out, done + UnicodeEscape(t, i).text) && next == ptr2 + |UnicodeEscape(t, i).text|
  {
    assert done + "" == done;
    next := ptr2;
    ptr := i + 1;
    var uc := ParseHex4(t, ptr + 1);
    ptr := ptr + 4;
    if 0xDC00 <= uc <= 0xDFFF || uc == 0 {
      return ptr + 1, next;
    }
    if 0xD800 <= uc <= 0xDBFF {
      if At(t, ptr + 1) != '\\' || At(t, ptr + 2) != 'u' {
        return ptr + 1, next;
      }
      var uc2 := ParseHex4(t, ptr + 3);
      ptr := ptr + 6;
      if uc2 < 0xDC00 || uc2 > 0xDFFF {
        return ptr + 1, next;
      }
      uc := 0x10000 + (uc % 0x400) * 0x400 + uc2 % 0x400;
    }
    next := PutCode(out, next, uc, done);
    ptr := ptr + 1;
  }

  /** A backslash and what it escapes. */
  method ReadEscape(t: string, i: nat, out: array<char>, ptr2: nat, ghost done: string) returns (ptr: nat, next: nat)
    requires i < |t| && t[i] == '\\' && EscapeAt(t, i).Emit?
    requires Written(out, done) && ptr2 == |done| && ptr2 + |EscapeAt(t, i).text| <= out.Length
    modifies out
    ensures ptr == EscapeAt(t, i).next
    ensures Written(out, done + EscapeAt(t, i).text) && next == ptr2 + |EscapeAt(t, i).text|
  {
    ptr, next := i + 1, ptr2 + 1;
    match At(t, ptr) {
      case 'b' => Put(out, ptr2, '\U{08}', done);
      case 'f' => Put(out, ptr2, '\U{0C}', done);
      case 'n' => Put(out, ptr2, '\n', done);
      case 'r' => Put(out, ptr2, '\r', done);
      case 't' => Put(out, ptr2, '\t', done);
      case 'u' =>
        ptr, next := ReadUnicode(t, i, out, ptr2, done);
        return;
      case c => Put(out, ptr2, c, done);
    }
    ptr := ptr + 1;
  }

  /** What is out so far and what is still to come make the whole text, and fit. */
  ghost predicate Midway(t: string, start: nat, ptr: nat, done: string, room: nat) {
    && start <= ptr <= |t| && Unescape(t, start).Text? && Unescape(t, ptr).Text?
    && Unescape(t, start).text == done + Unescape(t, ptr).text && Unescape(t, start).end == Unescape(t, ptr).end
    && |done| + CountSize(t, ptr) < room
  }

  lemma Regroup(a: string, b: string, c: string)
    ensures a + (b + c) == a + b + c
  {
  }

  lemma MidwayPlain(t: string, start: nat, ptr: nat, done: string, room: nat)
    requires Midway(t, start, ptr, done, room) && !EndsString(At(t, ptr)) && t[ptr] != '\\'
    ensures Midway(t, start, ptr + 1, done + [t[ptr]], room)
  {
    Regroup(done, [t[ptr]], Unescape(t, ptr + 1).text);
  }

  lemma MidwayEscape(t: string, start: nat, ptr: nat, done: string, room: nat)
    requires Midway(t, start, ptr, done, room) && !EndsString(At(t, ptr)) && t[ptr] == '\\'
    ensures EscapeAt(t, ptr).Emit? && |done| + |EscapeAt(t, ptr).text| < room
    ensures Midway(t, start, EscapeAt(t, ptr).next, done + EscapeAt(t, ptr).text, room)
  {
    var e := EscapeAt(t, ptr);
    CountEscape(t, ptr);
    Regroup(done, e.text, Unescape(t, e.next).text);
  }

  /** Both passes: a fresh buffer, of the size counted, holding the text. */
  method ReadString(t: string, str: nat) returns (out: array<char>, ptr: nat)
    requires str < |t| && t[str] == '\"' && ParseString(t, str).Text?
    ensures fresh(out) && Holds(out, ParseString(t, str).text) && ptr == ParseString(t, str).end
  {
    ghost var start := str + 1;
    ReadableStays(t, start);
    PassesAgree(t, start);
    var len := CountText(t, str);
    out := new char[len + 1];
    ptr := str + 1;
    var ptr2 := 0;
    ghost var done := "";
    while At(t, ptr) != '\"' && At(t, ptr) != '\0'
      invariant Midway(t, start, ptr, done, out.Length)
      invariant ptr2 == |done| && Written(out, done) && fresh(out)
      decreases |t| - ptr
    {
      if At(t, ptr) != '\\' {
        MidwayPlain(t, start, ptr, done, out.Length);
        Put(out, ptr2, t[ptr], done);
        done := done + [t[ptr]];
        ptr, ptr2 := ptr + 1, ptr2 + 1;
      } else {
        MidwayEscape(t, start, ptr, done, out.Length);
        ghost var e := EscapeAt(t, ptr);
        ptr, ptr2 := ReadEscape(t, ptr, out, ptr2, done);
        done := done + e.text;
      }
    }
    assert done + "" == done;
    out[ptr2] := '\0';
    if At(t, ptr) == '\"' {
      ptr := ptr + 1;
    }
  }

  // ----- reading the buffer back -----

  /** The C string at the start of a buffer. */
  function UpToNul(a: seq<char>): (s: string)
    ensures CString(s)
  {
    if a == [] || a[0] == '\0' then [] else [a[0]] + UpToNul(a[1..])
  }

  lemma {:induction false} UpToNulIs(a: seq<char>, s: string)
    requires CString(s) && |s| < |a| && a[|s|] == '\0' && forall k :: 0 <= k < |s| ==> a[k] == s[k]
    ensures UpToNul(a) == s
  {
    if s != [] {
      assert a[0] == s[0];
      UpToNulIs(a[1..], s[1..]);
    }
  }

  lemma Utf8CString(u: nat)
    requires 0 < u < 0x110000
    ensures CString(Utf8(u))
  {
    if u >= 0x80 {
    }
  }

  /** The unescaped text has no terminator inside. */
  lemma {:induction false} UnescapedIsCString(t: string, i: nat)
    requires i <= |t| && Unescape(t, i).Text?
    ensures CString(Unescape(t, i).text)
    decreases |t| - i
  {
    if !EndsString(At(t, i)) {
      if t[i] == '\\' {
        UnescapedIsCString(t, EscapeAt(t, i).next);
        EscapedIsCString(t, i);
      } else {
        UnescapedIsCString(t, i + 1);
      }
    }
  }

  lemma EscapedIsCString(t: string, i: nat)
    requires i < |t| && t[i] == '\\' && EscapeAt(t, i).Emit?
    ensures CString(EscapeAt(t, i).text)
  {
    if t[i + 1] == 'u' {
      var u := Hex4(t, i + 2);
      if !IsLow(u) && !IsHigh(u) && u != 0 {
        Utf8CString(u);
      } else if EscapeAt(t, i).text != "" {
        Utf8CString(Combine(u, Hex4(t, i + 8)));
      }
    }
  }
}
