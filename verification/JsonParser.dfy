/**
 The recursive parser of `src/cJSON/cJSON.c`, filling nodes as it walks the
 text.  Whatever the outcome, the nodes it allocated hang below the item it was
 given, so that a failed parse can be freed as a whole.
 */
module JsonParser {
  import opened CStrings
  import opened JsonText
  import opened JsonNodes
  import opened JsonLists
  import opened JsonTrees
  import opened JsonEdits
  import Spec = JsonParse
  import Unescaper = JsonUnescaper

  /** A pointer into the text, or null. */
  datatype Position = Nowhere | Here(at: nat)

  // ----- numbers -----

  /** The digits from `num` on, behind the number `n`. */
  method ReadWhole(t: string, num: nat, n: real) returns (end: nat, n': real)
    requires num <= |t|
    ensures end == Spec.DigitRun(t, num) && n' == Spec.Accumulate(t, num, end, n)
  {
    end, n' := num, n;
    ghost var stop := Spec.DigitRun(t, num);
    while '0' <= At(t, end) <= '9'
      invariant num <= end <= stop <= |t| && Spec.DigitRun(t, end) == stop
      invariant Spec.Accumulate(t, end, stop, n') == Spec.Accumulate(t, num, stop, n)
      decreases |t| - end
    {
      n' := n' * 10.0 + DigitValue(t[end]) as real;
      end := end + 1;
    }
  }

  /** The digits after the point; each takes one off the scale. */
  method ReadFraction(t: string, num: nat, n: real) returns (end: nat, n': real, scale: int)
    requires num <= |t|
    ensures end == Spec.DigitRun(t, num) && n' == Spec.Accumulate(t, num, end, n) && scale == -(end - num)
  {
    end, n', scale := num, n, 0;
    ghost var stop := Spec.DigitRun(t, num);
    while '0' <= At(t, end) <= '9'
      invariant num <= end <= stop <= |t| && Spec.DigitRun(t, end) == stop && scale == -(end - num)
      invariant Spec.Accumulate(t, end, stop, n') == Spec.Accumulate(t, num, stop, n)
      decreases |t| - end
    {
      n' := n' * 10.0 + DigitValue(t[end]) as real;
      end, scale := end + 1, scale - 1;
    }
  }

  method ReadSubscale(t: string, num: nat) returns (end: nat, subscale: int)
    requires num <= |t|
    ensures end == Spec.DigitRun(t, num) && subscale == Spec.AccumulateInt(t, num, end, 0)
  {
    end, subscale := num, 0;
    ghost var stop := Spec.DigitRun(t, num);
    while '0' <= At(t, end) <= '9'
      invariant num <= end <= stop <= |t| && Spec.DigitRun(t, end) == stop
      invariant Spec.AccumulateInt(t, end, stop, subscale) == Spec.AccumulateInt(t, num, stop, 0)
      decreases |t| - end
    {
      subscale := subscale * 10 + DigitValue(t[end]);
      end := end + 1;
    }
  }

  /** The sign, and the digits before and after the point. */
  method ReadMantissa(t: string, start: nat) returns (num: nat, sign: real, n: real, scale: int)
    requires start <= |t|
    ensures num == Spec.FractionEnd(t, Spec.IntegerEnd(t, start)) && n == Spec.Mantissa(t, start)
    ensures sign == if At(t, start) == '-' then -1.0 else 1.0
    ensures scale == if Spec.HasFraction(t, Spec.IntegerEnd(t, start)) then -(num - (Spec.IntegerEnd(t, start) + 1))
                     else 0
  {
    num, sign, n, scale := start, 1.0, 0.0, 0;
    if At(t, num) == '-' {
      sign, num := -1.0, num + 1;
    }
    if At(t, num) == '0' {
      num := num + 1;
    }
    if '1' <= At(t, num) <= '9' {
      num, n := ReadWhole(t, num, n);
    }
    if At(t, num) == '.' && '0' <= At(t, num + 1) <= '9' {
      num, n, scale := ReadFraction(t, num + 1, n);
    }
  }

  /** The exponent, if there is one: its sign and its size. */
  method ReadExponent(t: string, start: nat) returns (num: nat, subscale: int, signsubscale: int)
    requires start <= |t|
    ensures !Spec.HasExponent(t, start) ==> num == start && subscale == 0 && signsubscale == 1
    ensures Spec.HasExponent(t, start) ==>
              && num == Spec.DigitRun(t, Spec.ExponentStart(t, start))
              && subscale == Spec.AccumulateInt(t, Spec.ExponentStart(t, start), num, 0)
              && signsubscale == if At(t, start + 1) == '-' then -1 else 1
  {
    num, subscale, signsubscale := start, 0, 1;
    if At(t, num) == 'e' || At(t, num) == 'E' {
      num := num + 1;
      if At(t, num) == '+' {
        num := num + 1;
      } else if At(t, num) == '-' {
        signsubscale, num := -1, num + 1;
      }
      num, subscale := ReadSubscale(t, num);
    }
  }

  /** `parse_number` */
  method ParseNumber(item: Node, t: string, start: nat) returns (num: nat)
    requires start <= |t|
    modifies item`valuedouble, item`valueint, item`kind
    ensures num == Spec.NumberEnd(t, start)
    ensures Denotes(Shape(item, []), Number(Spec.NumberValue(t, start)))
  {
    var mantissa, sign, n, scale := ReadMantissa(t, start);
    var subscale, signsubscale;
    num, subscale, signsubscale := ReadExponent(t, mantissa);
    assert subscale * signsubscale == if signsubscale == -1 then -subscale else subscale;
    n := sign * n * Spec.Power10(scale + subscale * signsubscale);
    item.valuedouble := n;
    item.valueint := Truncate(n);
    item.kind := KindNumber;
  }

  /** `skip`, which passes a null on. */
  method SkipFrom(t: string, from: Position) returns (to: Position)
    requires from.Here? ==> from.at <= |t|
    ensures to == if from.Here? then Here(Skip(t, from.at)) else Nowhere
  {
    if from.Nowhere? {
      return Nowhere;
    }
    var i := from.at;
    while At(t, i) != '\0' && At(t, i) <= ' '
      invariant from.at <= i <= |t| && Skip(t, i) == Skip(t, from.at)
      decreases |t| - i
    {
      i := i + 1;
    }
    to := Here(i);
  }

  // ----- values -----

  /** The nodes below `item`, all its own. */
  ghost predicate Built(item: Node, kids: seq<Shape>)
    reads item, NodesOf(kids)
  {
    RootsAreNodes(kids);
    InnerIsNodes(kids);
    && item !in NodesOf(kids) && Linked(item.child, Roots(kids))
    && Trees(kids) && Apart(kids) && OwnedAll(kids)
  }

  /** A tree of its own: what hangs below the item is the item's, and nothing is linked to it. */
  ghost predicate Standing(item: Node, kids: seq<Shape>)
    reads item, NodesOf(kids)
  {
    Built(item, kids) && item.next == null && item.prev == null && !item.isReference
  }

  /** What a parse function reports and the value it leaves, by what the text is read as. */
  ghost predicate Told(sh: Shape, ep: Position, end: Position, r: Spec.Outcome)
    reads Nodes(sh)
  {
    match r
    case Parsed(v, e) => end == Here(e) && Denotes(sh, v)
    case Rejected(at) => end == Nowhere && ep == Here(at)
    case Unmodelled => false
  }

  ghost predicate Settled(item: Node, kids: seq<Shape>, ep: Position, end: Position, r: Spec.Outcome)
    reads item, NodesOf(kids)
  {
    Built(item, kids) && Told(Shape(item, kids), ep, end, r)
  }

  /** The type an item is given, by the first character of its value. */
  ghost predicate KindTold(item: Node, c: char)
    reads item`kind, item`valueint
  {
    match c
    case 'n' => item.kind == KindNull
    case 'f' => item.kind == KindFalse
    case 't' => item.kind == KindTrue && item.valueint == 1
    case '\"' => item.kind == KindString
    case '[' => item.kind == KindArray
    case '{' => item.kind == KindObject
    case _ => item.kind == KindNumber
  }

  /** The same outcome, with the white space behind it passed over. */
  function SkipAfter(t: string, r: Spec.Outcome): Spec.Outcome
    requires r.Parsed? ==> r.end <= |t|
  {
    if r.Parsed? then Spec.Parsed(r.value, Skip(t, r.end)) else r
  }

  /** A name, the colon and the white space around it. */
  function NameAt(t: string, i: nat): Spec.TextOutcome
    requires i <= |t|
  {
    match Spec.ParseString(t, i)
    case Text(name, e) =>
      if At(t, Skip(t, e)) != ':' then Spec.NoText(Skip(t, e)) else Spec.Text(name, Skip(t, Skip(t, e) + 1))
    case r => r
  }

  /** A member of that name with the value read. */
  function NamedMember(name: string, r: Spec.Outcome): Spec.MemberOutcome {
    if r.Parsed? then Spec.OneMember(Member(name, r.value), r.end) else Spec.NoMember(r)
  }

  function MemberFrom(t: string, r: Spec.TextOutcome): (m: Spec.MemberOutcome)
    requires r.Text? ==> r.end <= |t|
    ensures m.OneMember? ==> m.end <= |t|
  {
    match r
    case Text(name, e) => NamedMember(name, Spec.ParseValue(t, e))
    case NoText(at) => Spec.NoMember(Spec.Rejected(at))
    case BadEscape => Spec.NoMember(Spec.Unmodelled)
  }

  lemma MemberIsNamed(t: string, i: nat)
    requires i <= |t|
    ensures Spec.ParseMember(t, i) == MemberFrom(t, NameAt(t, i))
  {
  }

  /** What is reported for a name: where its value starts, or the error. */
  ghost predicate NameTold(child: Node, ep: Position, end: Position, r: Spec.TextOutcome)
    reads child`name
  {
    match r
    case Text(name, e) => end == Here(e) && child.name == Some(name)
    case NoText(at) => end == Nowhere && ep == Here(at)
    case BadEscape => false
  }

  /** What is reported for a member, the white space behind it passed over. */
  ghost predicate MemberTold(t: string, x: Shape, ep: Position, end: Position, r: Spec.MemberOutcome)
    requires r.OneMember? ==> r.end <= |t|
    reads Nodes(x)
  {
    match r
    case OneMember(m, e) => x.node.name == Some(m.name) && Told(x, ep, end, Spec.Parsed(m.value, Skip(t, e)))
    case NoMember(why) => end == Nowhere && why.Rejected? && ep == Here(why.at)
  }

  /** Elements or members read so far, the last of them in `last`. */
  ghost predicate ReadSoFar(item: Node, kids: seq<Shape>, last: Node?, v: Json)
    reads item, NodesOf(kids)
  {
    Built(item, kids) && last == Last(kids) && Denotes(Shape(item, kids), v)
  }

  /** The part of the parser's text still to be read after an element. */
  function AfterItem(t: string, j: nat, done: seq<Json>): Spec.Outcome
    requires j <= |t|
  {
    if At(t, j) == ',' then Spec.ParseMoreItems(t, j + 1, done)
    else if At(t, j) == ']' then Spec.Parsed(Array(done), j + 1)
    else Spec.Rejected(j)
  }

  function AfterMember(t: string, j: nat, done: seq<Member>): Spec.Outcome
    requires j <= |t|
  {
    if At(t, j) == ',' then Spec.ParseMoreMembers(t, j + 1, done)
    else if At(t, j) == '}' then Spec.Parsed(Object(done), j + 1)
    else Spec.Rejected(j)
  }

  /** The last tree of the list apart from the others. */
  lemma BuiltParts(item: Node, kids: seq<Shape>, x: Shape)
    ensures Built(item, kids + [x]) <==>
            && item !in NodesOf(kids) && item !in Nodes(x) && Linked(item.child, Roots(kids) + [x.node])
            && Trees(kids) && Tree(x) && Apart(kids) && Distinct(x) && NodesOf(kids) !! Nodes(x)
            && OwnedAll(kids) && Owned(x)
  {
    NodesOfAppend(kids, x);
    ApartAppend(kids, x);
    TreesAppend(kids, x);
    OwnedConcat(kids, [x]);
    One(x);
    assert Roots(kids + [x]) == Roots(kids) + [x.node];
  }

  /** A new node as one more tree of the list. */
  lemma LeafBehind(kids: seq<Shape>, x: Shape)
    requires x.kids == [] && x.node !in NodesOf(kids) && x.node.child == null && !x.node.isReference
    requires Apart(kids) && OwnedAll(kids)
    ensures NodesOf(kids + [x]) == NodesOf(kids) + {x.node} && Inner(kids + [x]) == Inner(kids)
    ensures Tree(x) && Apart(kids + [x]) && OwnedAll(kids + [x])
    ensures forall n :: n in Roots(kids + [x]) ==> n !in Inner(kids)
    ensures Last(kids) != null ==> Last(kids) in Roots(kids + [x])
  {
    NodesOfAppend(kids, x);
    ApartAppend(kids, x);
    OwnedConcat(kids, [x]);
    One(x);
    RootsNotInner(kids + [x]);
    assert Last(kids) != null ==> Roots(kids + [x])[|kids| - 1] == Last(kids);
  }

  class Parser {
    /** The global error pointer. */
    var ep: Position
    const pool: Pool

    constructor (pool: Pool)
      ensures this.pool == pool
    {
      ep := Nowhere;
      this.pool := pool;
    }

    /** `parse_string` */
    method ParseString(item: Node, t: string, str: nat) returns (end: Position)
      requires str <= |t| && !Spec.ParseString(t, str).BadEscape?
      modifies this`ep, item`valuestring, item`kind
      ensures match Spec.ParseString(t, str)
        case Text(s, e) => end == Here(e) && item.kind == KindString && item.valuestring == Some(s)
        case NoText(at) => end == Nowhere && ep == Here(at) && unchanged(item)
        case BadEscape => false
    {
      if At(t, str) != '\"' {
        ep := Here(str);
        return Nowhere;
      }
      var out, ptr := Unescaper.ReadString(t, str);
      Unescaper.UnescapedIsCString(t, str + 1);
      Unescaper.UpToNulIs(out[..], Spec.ParseString(t, str).text);
      item.valuestring := Some(Unescaper.UpToNul(out[..]));
      item.kind := KindString;
      end := Here(ptr);
    }

    /** `parse_value` */
    method ParseValue(item: Node, t: string, value: nat) returns (end: Position, ghost kids: seq<Shape>)
      requires value <= |t| && !Spec.ParseValue(t, value).Unmodelled?
      requires item.child == null
      modifies this`ep, pool, item`child, item`kind, item`valuestring, item`valueint, item`valuedouble
      ensures Settled(item, kids, ep, end, Spec.ParseValue(t, value))
      ensures end.Here? ==> KindTold(item, At(t, value))
      ensures At(t, value) != '\"' ==> item.valuestring == old(item.valuestring)
      ensures fresh(NodesOf(kids)) && pool.live == old(pool.live) + NodesOf(kids)
      decreases |t| - value, 1
    {
      kids := [];
      StartsHas(t, value, "null");
      StartsHas(t, value, "false");
      StartsHas(t, value, "true");
      if Starts(t, value, "null") {
        item.kind := KindNull;
        return Here(value + 4), kids;
      }
      if Starts(t, value, "false") {
        item.kind := KindFalse;
        return Here(value + 5), kids;
      }
      if Starts(t, value, "true") {
        item.kind := KindTrue;
        item.valueint := 1;
        return Here(value + 4), kids;
      }
      if At(t, value) == '\"' {
        end := ParseString(item, t, value);
        return;
      }
      if At(t, value) == '-' || '0' <= At(t, value) <= '9' {
        var num := ParseNumber(item, t, value);
        return Here(num), kids;
      }
      if At(t, value) == '[' {
        end, kids := ParseArray(item, t, value);
        return;
      }
      if At(t, value) == '{' {
        end, kids := ParseObject(item, t, value);
        return;
      }
      ep := Here(value);
      end := Nowhere;
    }

    /** A new node behind the last child. */
    method NewChild(item: Node, last: Node?, ghost kids: seq<Shape>) returns (child: Node)
      requires Built(item, kids) && last == Last(kids)
      modifies pool, item`child, Just(last)`next
      ensures fresh(child) && pool.live == old(pool.live) + {child} && child.child == null && !child.isReference
      ensures Built(item, kids + [Shape(child, [])])
    {
      AllAllocated(kids);
      RootsAreNodes(kids);
      child := pool.NewItem();
      ghost var x := Shape(child, []);
      LeafBehind(kids, x);
      label Before:
      AddChild(item, last, child, kids, x);
      RelinkingKeeps@Before(kids + [x]);
    }

    /** `skip(parse_value(...))` */
    method ParseValueSkip(item: Node, t: string, value: nat) returns (end: Position, ghost kids: seq<Shape>)
      requires value <= |t| && !Spec.ParseValue(t, value).Unmodelled?
      requires item.child == null
      modifies this`ep, pool, item`child, item`kind, item`valuestring, item`valueint, item`valuedouble
      ensures Settled(item, kids, ep, end, SkipAfter(t, Spec.ParseValue(t, value)))
      ensures fresh(NodesOf(kids)) && pool.live == old(pool.live) + NodesOf(kids)
      decreases |t| - value, 2
    {
      end, kids := ParseValue(item, t, value);
      AllAllocated(kids);
      end := SkipFrom(t, end);
    }

    /** Reads a value into the last child. */
    method FillChild(item: Node, child: Node, t: string, value: nat, ghost kids: seq<Shape>)
      returns (end: Position, ghost sub: seq<Shape>)
      requires value <= |t| && !Spec.ParseValue(t, value).Unmodelled?
      requires Built(item, kids + [Shape(child, [])]) && child.child == null && !child.isReference
      modifies this`ep, pool, child`child, child`kind, child`valuestring, child`valueint, child`valuedouble
      ensures Settled(child, sub, ep, end, SkipAfter(t, Spec.ParseValue(t, value)))
      ensures fresh(NodesOf(sub)) && pool.live == old(pool.live) + NodesOf(sub)
      ensures Built(item, kids + [Shape(child, sub)])
      decreases |t| - value, 3
    {
      BuiltParts(item, kids, Shape(child, []));
      AllAllocated(kids);
      end, sub := ParseValueSkip(child, t, value);
      OwnedAllIsOwnedList(child.child, sub);
      BuiltParts(item, kids, Shape(child, sub));
    }

    /** One element: white space, a new child and the value in it. */
    method ReadItem(item: Node, last: Node?, t: string, from: nat, ghost kids: seq<Shape>)
      returns (child: Node, end: Position, ghost x: Shape)
      requires from <= |t| && !Spec.ParseValue(t, Skip(t, from)).Unmodelled?
      requires Built(item, kids) && last == Last(kids)
      modifies this`ep, pool, item`child, Just(last)`next
      ensures child == x.node && Built(item, kids + [x])
      ensures fresh(Nodes(x)) && pool.live == old(pool.live) + Nodes(x)
      ensures Told(x, ep, end, SkipAfter(t, Spec.ParseValue(t, Skip(t, from))))
      decreases |t| - from, 4
    {
      AllAllocated(kids);
      var start := SkipFrom(t, Here(from));
      child := NewChild(item, last, kids);
      ghost var sub;
      end, sub := FillChild(item, child, t, start.at, kids);
      x := Shape(child, sub);
    }

    /** A name and the colon after it: where the value starts. */
    method ReadName(child: Node, t: string, value: nat) returns (end: Position)
      requires value <= |t| && !NameAt(t, value).BadEscape?
      modifies this`ep, child`name, child`valuestring, child`kind
      ensures NameTold(child, ep, end, NameAt(t, value)) && (end.Here? ==> child.valuestring == Nothing)
    {
      end := ParseString(child, t, value);
      end := SkipFrom(t, end);
      if end.Nowhere? {
        return;
      }
      child.name, child.valuestring := child.valuestring, Nothing;
      if At(t, end.at) != ':' {
        ep := end;
        return Nowhere;
      }
      end := SkipFrom(t, Here(end.at + 1));
    }

    /** White space, a new child, its name and the colon. */
    method ReadHead(item: Node, last: Node?, t: string, from: nat, ghost kids: seq<Shape>)
      returns (child: Node, end: Position)
      requires from <= |t| && !NameAt(t, Skip(t, from)).BadEscape?
      requires Built(item, kids) && last == Last(kids)
      modifies this`ep, pool, item`child, Just(last)`next
      ensures fresh(child) && pool.live == old(pool.live) + {child} && child.child == null && !child.isReference
      ensures Built(item, kids + [Shape(child, [])])
      ensures NameTold(child, ep, end, NameAt(t, Skip(t, from)))
    {
      AllAllocated(kids);
      var start := SkipFrom(t, Here(from));
      child := NewChild(item, last, kids);
      AllAllocated(kids + [Shape(child, [])]);
      end := ReadName(child, t, start.at);
    }

    /** What follows the name and the colon, if they are there. */
    method ReadNamed(item: Node, child: Node, t: string, named: Position, ghost kids: seq<Shape>,
                     ghost r: Spec.TextOutcome,
                     ghost from: nat)
      returns (end: Position, ghost x: Shape, ghost below: set<Node>)
      requires NameTold(child, ep, named, r) && (r.Text? ==> r.end <= |t| && !Spec.ParseValue(t, r.end).Unmodelled?)
      requires named.Here? ==> from <= named.at
      requires Built(item, kids + [Shape(child, [])]) && child.child == null && !child.isReference
      modifies this`ep, pool, child`child, child`kind, child`valuestring, child`valueint, child`valuedouble
      ensures child == x.node && Built(item, kids + [x])
      ensures Nodes(x) == {child} + below && fresh(below) && pool.live == old(pool.live) + below
      ensures MemberTold(t, x, ep, end, MemberFrom(t, r))
      decreases |t| - from, 4
    {
      end, x, below := named, Shape(child, []), {};
      if end.Here? {
        ghost var sub;
        end, sub := FillChild(item, child, t, end.at, kids);
        x, below := Shape(child, sub), NodesOf(sub);
      }
    }

    /** One member: white space, a new child, a name and a value. */
    method ReadMember(item: Node, last: Node?, t: string, from: nat, ghost kids: seq<Shape>)
      returns (child: Node, end: Position, ghost x: Shape)
      requires from <= |t| && Spec.ParseMember(t, Skip(t, from)) != Spec.NoMember(Spec.Unmodelled)
      requires Built(item, kids) && last == Last(kids)
      modifies this`ep, pool, item`child, Just(last)`next
      ensures child == x.node && Built(item, kids + [x])
      ensures fresh(Nodes(x)) && pool.live == old(pool.live) + Nodes(x)
      ensures MemberTold(t, x, ep, end, Spec.ParseMember(t, Skip(t, from)))
      decreases |t| - from, 5
    {
      MemberIsNamed(t, Skip(t, from));
      child, end := ReadHead(item, last, t, from, kids);
      ghost var below;
      end, x, below := ReadNamed(item, child, t, end, kids, NameAt(t, Skip(t, from)), from);
    }

    /** One element read into the list. */
    method NextItem(item: Node, last: Node?, t: string, from: nat, ghost kids: seq<Shape>, ghost done: seq<Json>)
      returns (child: Node, end: Position, ghost x: Shape, ghost v: Json)
      requires from <= |t| && !Spec.ParseMoreItems(t, from, done).Unmodelled?
      requires ReadSoFar(item, kids, last, Array(done))
      modifies this`ep, pool, item`child, Just(last)`next
      ensures fresh(Nodes(x)) && pool.live == old(pool.live) + Nodes(x) && child == x.node
      ensures end.Nowhere? ==>
                Built(item, kids + [x]) && ep.Here? && Spec.ParseMoreItems(t, from, done) == Spec.Rejected(ep.at)
      ensures end.Here? ==>
                && ReadSoFar(item, kids + [x], child, Array(done + [v])) && from < end.at <= |t|
                && Spec.ParseMoreItems(t, from, done) == AfterItem(t, end.at, done + [v])
      decreases |t| - from, 5
    {
      AllAllocated(kids);
      RootsAreNodes(kids);
      ghost var r := Spec.ParseValue(t, Skip(t, from));
      v := Null;
      child, end, x := ReadItem(item, last, t, from, kids);
      if end.Here? {
        v := r.value;
        DenoteAppend(kids, done, x, v);
      }
    }

    /** The closing bracket behind the last of the elements. */
    method CloseArray(item: Node, ghost last: Node?, t: string, at: nat, ghost kids: seq<Shape>, ghost done: seq<Json>)
      returns (end: Position)
      requires at <= |t| && At(t, at) != ',' && ReadSoFar(item, kids, last, Array(done))
      modifies this`ep
      ensures Settled(item, kids, ep, end, AfterItem(t, at, done))
    {
      if At(t, at) == ']' {
        return Here(at + 1);
      }
      ep := Here(at);
      end := Nowhere;
    }

    /** The elements after the first, and the end of the array. */
    method ReadItems(item: Node, first: Node, t: string, from: nat, ghost before: seq<Shape>, ghost items: seq<Json>)
      returns (end: Position, ghost kids: seq<Shape>, ghost more: set<Node>)
      requires from <= |t| && !AfterItem(t, from, items).Unmodelled?
      requires ReadSoFar(item, before, first, Array(items))
      modifies this`ep, pool, item`child, first`next
      ensures Settled(item, kids, ep, end, AfterItem(t, from, items))
      ensures NodesOf(kids) == NodesOf(before) + more && fresh(more) && pool.live == old(pool.live) + more
      decreases |t| - from, 6
    {
      var child := first;
      ghost var done := items;
      end, kids, more := Here(from), before, {};
      while At(t, end.at) == ','
        invariant end.Here? && from <= end.at <= |t| && AfterItem(t, end.at, done) == AfterItem(t, from, items)
        invariant ReadSoFar(item, kids, child, Array(done)) && (child == first || fresh(child))
        invariant NodesOf(kids) == NodesOf(before) + more && fresh(more) && pool.live == old(pool.live) + more
        decreases |t| - end.at
      {
        ghost var x, v;
        child, end, x, v := NextItem(item, child, t, end.at + 1, kids, done);
        NodesOfAppend(kids, x);
        more := more + Nodes(x);
        if end.Nowhere? {
          return end, kids + [x], more;
        }
        kids, done := kids + [x], done + [v];
      }
      end := CloseArray(item, child, t, end.at, kids, done);
    }

    /** `parse_array` */
    method ParseArray(item: Node, t: string, value: nat) returns (end: Position, ghost kids: seq<Shape>)
      requires value < |t| && t[value] == '[' && !Spec.ParseArray(t, value).Unmodelled?
      requires item.child == null
      modifies this`ep, pool, item`child, item`kind
      ensures Settled(item, kids, ep, end, Spec.ParseArray(t, value)) && item.kind == KindArray
      ensures fresh(NodesOf(kids)) && pool.live == old(pool.live) + NodesOf(kids)
      decreases |t| - value, 0
    {
      kids := [];
      item.kind := KindArray;
      end := SkipFrom(t, Here(value + 1));
      if At(t, end.at) == ']' {
        return Here(end.at + 1), kids;
      }
      SkipAgain(t, value + 1);
      ghost var x, v, more;
      var child;
      child, end, x, v := NextItem(item, null, t, end.at, [], []);
      kids := [] + [x];
      if end.Here? {
        end, kids, more := ReadItems(item, child, t, end.at, kids, [] + [v]);
      }
    }

    /** One member read into the list. */
    method NextMember(item: Node, last: Node?, t: string, from: nat, ghost kids: seq<Shape>, ghost done: seq<Member>)
      returns (child: Node, end: Position, ghost x: Shape, ghost m: Member)
      requires from <= |t| && !Spec.ParseMoreMembers(t, from, done).Unmodelled?
      requires ReadSoFar(item, kids, last, Object(done))
      modifies this`ep, pool, item`child, Just(last)`next
      ensures fresh(Nodes(x)) && pool.live == old(pool.live) + Nodes(x) && child == x.node
      ensures end.Nowhere? ==>
                Built(item, kids + [x]) && ep.Here? && Spec.ParseMoreMembers(t, from, done) == Spec.Rejected(ep.at)
      ensures end.Here? ==>
                && ReadSoFar(item, kids + [x], child, Object(done + [m])) && from < end.at <= |t|
                && Spec.ParseMoreMembers(t, from, done) == AfterMember(t, end.at, done + [m])
      decreases |t| - from, 6
    {
      AllAllocated(kids);
      RootsAreNodes(kids);
      ghost var r := Spec.ParseMember(t, Skip(t, from));
      m := Member("", Null);
      child, end, x := ReadMember(item, last, t, from, kids);
      if end.Here? {
        m := r.member;
        MembersAppend(kids, done, x, m);
      }
    }

    /** The closing bracket behind the last of the members. */
    method CloseObject(item: Node, ghost last: Node?, t: string, at: nat, ghost kids: seq<Shape>,
                       ghost done: seq<Member>)
      returns (end: Position)
      requires at <= |t| && At(t, at) != ',' && ReadSoFar(item, kids, last, Object(done))
      modifies this`ep
      ensures Settled(item, kids, ep, end, AfterMember(t, at, done))
    {
      if At(t, at) == '}' {
        return Here(at + 1);
      }
      ep := Here(at);
      end := Nowhere;
    }

    /** The members after the first, and the end of the object. */
    method ReadMembers(item: Node, first: Node, t: string, from: nat, ghost before: seq<Shape>,
                       ghost members: seq<Member>)
      returns (end: Position, ghost kids: seq<Shape>, ghost more: set<Node>)
      requires from <= |t| && !AfterMember(t, from, members).Unmodelled?
      requires ReadSoFar(item, before, first, Object(members))
      modifies this`ep, pool, item`child, first`next
      ensures Settled(item, kids, ep, end, AfterMember(t, from, members))
      ensures NodesOf(kids) == NodesOf(before) + more && fresh(more) && pool.live == old(pool.live) + more
      decreases |t| - from, 7
    {
      var child := first;
      ghost var done := members;
      end, kids, more := Here(from), before, {};
      while At(t, end.at) == ','
        invariant end.Here? && from <= end.at <= |t| && AfterMember(t, end.at, done) == AfterMember(t, from, members)
        invariant ReadSoFar(item, kids, child, Object(done)) && (child == first || fresh(child))
        invariant NodesOf(kids) == NodesOf(before) + more && fresh(more) && pool.live == old(pool.live) + more
        decreases |t| - end.at
      {
        ghost var x, m;
        child, end, x, m := NextMember(item, child, t, end.at + 1, kids, done);
        NodesOfAppend(kids, x);
        more := more + Nodes(x);
        if end.Nowhere? {
          return end, kids + [x], more;
        }
        kids, done := kids + [x], done + [m];
      }
      end := CloseObject(item, child, t, end.at, kids, done);
    }

    /** `parse_object` */
    method ParseObject(item: Node, t: string, value: nat) returns (end: Position, ghost kids: seq<Shape>)
      requires value < |t| && t[value] == '{' && !Spec.ParseObject(t, value).Unmodelled?
      requires item.child == null
      modifies this`ep, pool, item`child, item`kind
      ensures Settled(item, kids, ep, end, Spec.ParseObject(t, value)) && item.kind == KindObject
      ensures fresh(NodesOf(kids)) && pool.live == old(pool.live) + NodesOf(kids)
      decreases |t| - value, 0
    {
      kids := [];
      item.kind := KindObject;
      end := SkipFrom(t, Here(value + 1));
      if At(t, end.at) == '}' {
        return Here(end.at + 1), kids;
      }
      SkipAgain(t, value + 1);
      ghost var x, m, more;
      var child;
      child, end, x, m := NextMember(item, null, t, end.at, [], []);
      kids := [] + [x];
      if end.Here? {
        end, kids, more := ReadMembers(item, child, t, end.at, kids, [] + [m]);
      }
    }

    /** `cJSON_ParseWithOpts`: the value read, or nothing kept of what was allocated. */
    method ParseWithOpts(t: string, whole: bool) returns (c: Node?, end: Position, ghost kids: seq<Shape>)
      requires !Spec.ParseDocument(t, whole).Unmodelled?
      modifies this, pool
      ensures match Spec.ParseDocument(t, whole)
        case Parsed(v, e) =>
          && c != null && end == Here(e) && Standing(c, kids) && Denotes(Shape(c, kids), v)
          && fresh(Nodes(Shape(c, kids))) && pool.live == old(pool.live) + Nodes(Shape(c, kids))
        case Rejected(at) => c == null && ep == Here(at) && pool.live == old(pool.live)
        case Unmodelled => false
    {
      var item := pool.NewItem();
      ep := Nowhere;
      var start := SkipFrom(t, Here(0));
      end, kids := ParseValue(item, t, start.at);
      if end.Nowhere? {
        DeleteRoot(item, kids);
        return null, end, kids;
      }
      if whole {
        AllAllocated(kids);
        end := SkipFrom(t, end);
        if At(t, end.at) != '\0' {
          DeleteRoot(item, kids);
          ep := end;
          return null, end, kids;
        }
      }
      c := item;
    }

    /** `cJSON_Delete` of such a tree. */
    method DeleteRoot(item: Node, ghost kids: seq<Shape>)
      requires Standing(item, kids) && Nodes(Shape(item, kids)) <= pool.live
      modifies pool
      ensures pool.live == old(pool.live) - Nodes(Shape(item, kids))
    {
      One(Shape(item, kids));
      OwnedAllIsOwnedList(item.child, kids);
      assert OwnedList(null, []);
      assert [Shape(item, kids)][1..] == [];
      Delete(item, pool, [Shape(item, kids)]);
    }
  }

  lemma SkipAgain(t: string, i: nat)
    requires i <= |t|
    ensures Skip(t, Skip(t, i)) == Skip(t, i)
  {
  }

  lemma DenoteAppend(kids: seq<Shape>, items: seq<Json>, x: Shape, v: Json)
    requires DenoteItems(kids, items) && Denotes(x, v)
    ensures DenoteItems(kids + [x], items + [v])
  {
    assert DenoteItems([x], [v]);
    DenoteConcat(kids, [x], items, [v]);
  }

  lemma {:induction false} MembersAppend(kids: seq<Shape>, members: seq<Member>, x: Shape, m: Member)
    requires DenoteMembers(kids, members) && x.node.name == Some(m.name) && Denotes(x, m.value)
    ensures DenoteMembers(kids + [x], members + [m])
    decreases kids
  {
    if kids == [] {
      assert kids + [x] == [x] && members + [m] == [m];
    } else {
      assert (kids + [x])[1..] == kids[1..] + [x] && (members + [m])[1..] == members[1..] + [m];
      MembersAppend(kids[1..], members[1..], x, m);
    }
  }
}
