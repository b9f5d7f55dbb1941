/**
 JSON values and C text, the vocabulary shared by the cJSON modules.

 A C `char` is a Dafny `char` whose code is the byte's unsigned value.  A text
 is the bytes before its terminator: `At` reads the terminator just past the end
 and cannot be asked to read further, so every index proof below is a proof that
 the source does not run off its buffer.
 */
module JsonText {
  import opened CStrings

  datatype Json =
    | Null
    | False
    | True
    | Number(value: real)
    | String(text: string)
    | Array(items: seq<Json>)
    | Object(members: seq<Member>)

  datatype Member = Member(name: string, value: Json)

  const INT_MIN := -0x8000_0000
  const INT_MAX := 0x7FFF_FFFF

  function At(t: string, i: nat): char
    requires i <= |t|
  {
    if i < |t| then t[i] else '\0'
  }

  /** The text `p` stands in `t` at position `i`. */
  predicate Has(t: string, i: nat, p: string) {
    i + |p| <= |t| && forall k :: 0 <= k < |p| ==> p[k] == t[i + k]
  }

  lemma HasAppend(t: string, i: nat, p: string, q: string)
    ensures Has(t, i, p + q) <==> Has(t, i, p) && Has(t, i + |p|, q)
  {
    var s := p + q;
    assert forall k :: 0 <= k < |p| ==> s[k] == p[k];
    assert forall k :: 0 <= k < |q| ==> s[|p| + k] == q[k];
  }

  lemma HasThree(t: string, i: nat, p: string, q: string, r: string)
    ensures Has(t, i, p + q + r) <==> Has(t, i, p) && Has(t, i + |p|, q) && Has(t, i + |p| + |q|, r)
  {
    HasAppend(t, i, p + q, r);
    HasAppend(t, i, p, q);
  }

  lemma HasFour(t: string, i: nat, p: string, q: string, r: string, s: string)
    ensures Has(t, i, p + q + r + s) <==>
            Has(t, i, p) && Has(t, i + |p|, q) && Has(t, i + |p| + |q|, r) && Has(t, i + |p| + |q| + |r|, s)
  {
    HasAppend(t, i, p + q + r, s);
    HasThree(t, i, p, q, r);
  }

  lemma HasChar(t: string, i: nat, c: char)
    ensures Has(t, i, [c]) <==> i < |t| && t[i] == c
  {
    assert [c][0] == c;
  }

  lemma HasAt(t: string, i: nat, p: string, k: nat)
    requires Has(t, i, p) && k < |p|
    ensures i + k < |t| && t[i + k] == p[k]
  {
    assert p[k] == t[i + k];
  }

  /** `strncmp` against a keyword, character by character. */
  predicate Starts(t: string, i: nat, p: string)
    requires i <= |t|
    decreases p
  {
    p == [] || (i < |t| && t[i] == p[0] && Starts(t, i + 1, p[1..]))
  }

  lemma {:induction false} StartsHas(t: string, i: nat, p: string)
    requires i <= |t|
    ensures Starts(t, i, p) <==> Has(t, i, p)
    decreases p
  {
    if p != [] {
      assert p == [p[0]] + p[1..];
      HasAppend(t, i, [p[0]], p[1..]);
      HasChar(t, i, p[0]);
      if i < |t| {
        StartsHas(t, i + 1, p[1..]);
      }
    }
  }

  // ----- white space -----

  predicate IsSpace(c: char) {
    c != '\0' && c <= ' '
  }

  /** The source's `skip`. */
  function Skip(t: string, i: nat): (j: nat)
    requires i <= |t|
    ensures i <= j <= |t|
    ensures !IsSpace(At(t, j))
    decreases |t| - i
  {
    if IsSpace(At(t, i)) then Skip(t, i + 1) else i
  }

  predicate AllSpace(p: string) {
    forall k :: 0 <= k < |p| ==> IsSpace(p[k])
  }

  lemma {:induction false} SkipUnique(t: string, i: nat, j: nat)
    requires i <= j <= |t|
    requires forall k :: i <= k < j ==> IsSpace(t[k])
    requires !IsSpace(At(t, j))
    ensures Skip(t, i) == j
    decreases j - i
  {
    if i < j {
      SkipUnique(t, i + 1, j);
    }
  }

  lemma SkipOver(t: string, i: nat, p: string)
    requires Has(t, i, p) && AllSpace(p) && !IsSpace(At(t, i + |p|))
    ensures Skip(t, i) == i + |p|
  {
    forall k | i <= k < i + |p| ensures IsSpace(t[k]) {
      HasAt(t, i, p, k - i);
    }
    SkipUnique(t, i, i + |p|);
  }

  // ----- digits -----

  predicate IsDigit(c: char) {
    '0' <= c <= '9'
  }

  function DigitValue(c: char): int {
    c as int - '0' as int
  }

  function DigitChar(d: nat): (c: char)
    requires d < 10
    ensures IsDigit(c) && DigitValue(c) == d
  {
    ('0' as int + d) as char
  }

  /** The decimal digits of a natural number, as `%d` prints them. */
  function Digits(n: nat): (s: string)
    ensures |s| > 0 && IsDigit(s[0])
  {
    if n < 10 then [DigitChar(n)] else Digits(n / 10) + [DigitChar(n % 10)]
  }

  function Decimal(n: int): (s: string)
    ensures |s| > 0 && (s[0] == '-' || IsDigit(s[0]))
  {
    if n < 0 then "-" + Digits(-n) else Digits(n)
  }

  // ----- printable values -----

  predicate IntValued(r: real) {
    r == r.Floor as real && INT_MIN <= r.Floor <= INT_MAX
  }

  /** The values the printed forms are modelled for: numbers that are C ints,
      and strings a NUL-terminated buffer can hold. */
  predicate Printable(v: Json)
    decreases v, 0
  {
    match v
    case Number(r) => IntValued(r)
    case String(s) => CString(s)
    case Array(items) => PrintableItems(items)
    case Object(members) => PrintableMembers(members)
    case _ => true
  }

  predicate PrintableItems(items: seq<Json>)
    decreases items, 1
  {
    items == [] || (Printable(items[0]) && PrintableItems(items[1..]))
  }

  predicate PrintableMember(m: Member)
    decreases m, 1
  {
    CString(m.name) && Printable(m.value)
  }

  predicate PrintableMembers(members: seq<Member>)
    decreases members, 1
  {
    members == [] || (PrintableMember(members[0]) && PrintableMembers(members[1..]))
  }
}
