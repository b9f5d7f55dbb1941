/**
 The mutable tree of `src/cJSON/cJSON.h`: nodes with `next`/`prev` links between
 siblings and a `child` link to the first of them.

 A `Shape` names the nodes of a tree in order.  It is how specifications talk
 about a linked structure: `Tree` says the links of the nodes are those of the
 shape, `Denotes` says which JSON value the nodes hold.
 */
module JsonNodes {
  import opened CStrings
  import opened JsonText

  /** The type codes, without the reference flag. */
  datatype Kind = KindFalse | KindTrue | KindNull | KindNumber | KindString | KindArray | KindObject

  class Node {
    var next: Node?
    var prev: Node?
    var child: Node?
    var kind: Kind
    var isReference: bool
    var valuestring: CharPtr
    var valueint: int
    var valuedouble: real
    var name: CharPtr

    constructor ()
      ensures IsZero()
    {
      next, prev, child := null, null, null;
      kind, isReference := KindFalse, false;
      valuestring, name := Nothing, Nothing;
      valueint, valuedouble := 0, 0.0;
    }

    /** As `memset` leaves a new node. */
    ghost predicate IsZero()
      reads this
    {
      && next == null && prev == null && child == null && kind == KindFalse && !isReference
      && valuestring == Nothing && name == Nothing && valueint == 0 && valuedouble == 0.0
    }
  }

  /** The allocator: which nodes are allocated and not yet freed. */
  class Pool {
    ghost var live: set<Node>

    constructor ()
      ensures live == {}
    {
      live := {};
    }

    /** `cJSON_New_Item`, where allocation succeeds. */
    method NewItem() returns (node: Node)
      modifies this
      ensures fresh(node) && node.IsZero()
      ensures live == old(live) + {node}
    {
      node := new Node();
      live := live + {node};
    }

    /** Only what is live may be freed, so nothing is freed twice. */
    method Free(node: Node)
      requires node in live
      modifies this
      ensures live == old(live) - {node}
    {
      live := live - {node};
    }
  }

  // ----- sibling lists -----

  /** `first` leads through the nodes of `s` and `prev` leads back. */
  ghost predicate Linked(first: Node?, s: seq<Node>)
    reads s`next, s`prev
  {
    && (s == [] ==> first == null)
    && (s != [] ==> first == s[0] && s[0].prev == null && s[|s| - 1].next == null)
    && (forall i :: 0 < i < |s| ==> s[i].prev == s[i - 1])
    && (forall i :: 0 < i < |s| ==> s[i - 1].next == s[i])
  }

  predicate AllDifferent(s: seq<Node>) {
    forall i, j :: 0 <= i < j < |s| ==> s[i] != s[j]
  }

  /** A list that is linked that way has no node twice. */
  lemma {:induction false} LinkedIsDifferent(first: Node?, s: seq<Node>)
    requires Linked(first, s)
    ensures AllDifferent(s)
  {
    forall i, j | 0 <= i < j < |s| ensures s[i] != s[j] {
      NotAgain(first, s, i, j);
    }
  }

  lemma {:induction false} NotAgain(first: Node?, s: seq<Node>, i: nat, j: nat)
    requires Linked(first, s) && i < j < |s|
    ensures s[i] != s[j]
  {
    assert s[j].prev == s[j - 1];
    if i > 0 {
      assert s[i].prev == s[i - 1];
      NotAgain(first, s, i - 1, j - 1);
    }
  }

  // ----- trees -----

  datatype Shape = Shape(node: Node, kids: seq<Shape>)

  function Roots(kids: seq<Shape>): (s: seq<Node>)
    ensures |s| == |kids| && forall i :: 0 <= i < |s| ==> s[i] == kids[i].node
  {
    seq(|kids|, i requires 0 <= i < |kids| => kids[i].node)
  }

  function Nodes(sh: Shape): set<Node>
    decreases sh, 0
  {
    {sh.node} + NodesOf(sh.kids)
  }

  function NodesOf(kids: seq<Shape>): set<Node>
    decreases kids, 1
  {
    if kids == [] then {} else Nodes(kids[0]) + NodesOf(kids[1..])
  }

  /** The nodes below the roots. */
  function Inner(kids: seq<Shape>): set<Node>
    decreases kids, 1
  {
    if kids == [] then {} else NodesOf(kids[0].kids) + Inner(kids[1..])
  }

  /** The nodes are linked as the shape says; the root's own `next` and `prev`
      belong to the list it is in. */
  ghost predicate Tree(sh: Shape)
    reads Nodes(sh)`child, NodesOf(sh.kids)`next, NodesOf(sh.kids)`prev
    decreases sh, 0
  {
    RootsAreNodes(sh.kids);
    InnerIsNodes(sh.kids);
    Linked(sh.node.child, Roots(sh.kids)) && Trees(sh.kids)
  }

  ghost predicate Trees(kids: seq<Shape>)
    reads NodesOf(kids)`child, Inner(kids)`next, Inner(kids)`prev
    decreases kids, 1
  {
    kids == [] || (Tree(kids[0]) && Trees(kids[1..]))
  }

  lemma {:induction false} InnerIsNodes(kids: seq<Shape>)
    ensures Inner(kids) <= NodesOf(kids)
  {
    if kids != [] {
      InnerIsNodes(kids[1..]);
    }
  }

  lemma {:induction false} RootsAreNodes(kids: seq<Shape>)
    ensures forall i :: 0 <= i < |kids| ==> kids[i].node in NodesOf(kids)
    ensures forall n :: n in Roots(kids) ==> n in NodesOf(kids)
  {
    if kids != [] {
      RootsAreNodes(kids[1..]);
      forall i | 0 <= i < |kids| ensures kids[i].node in NodesOf(kids) {
        if i > 0 {
          assert kids[i] == kids[1..][i - 1];
        }
      }
    }
  }

  /** No node occurs twice. */
  predicate Distinct(sh: Shape)
    decreases sh, 0
  {
    sh.node !in NodesOf(sh.kids) && Apart(sh.kids)
  }

  predicate Apart(kids: seq<Shape>)
    decreases kids, 1
  {
    kids == [] || (Distinct(kids[0]) && Nodes(kids[0]) !! NodesOf(kids[1..]) && Apart(kids[1..]))
  }

  // ----- values -----

  /** Conversion of a double to int, toward zero. */
  function Truncate(r: real): int {
    if r >= 0.0 then r.Floor else -((-r).Floor)
  }

  /** The whole number next to `r` on the side of zero. */
  lemma TruncateExactlyWhen(r: real, n: int)
    ensures n == Truncate(r) <==>
            if r >= 0.0 then n as real <= r < n as real + 1.0 else n as real - 1.0 < r <= n as real
  {
  }

  /** The nodes hold the value `v`. */
  ghost predicate Denotes(sh: Shape, v: Json)
    reads Nodes(sh)`kind, Nodes(sh)`valuestring, Nodes(sh)`valueint, Nodes(sh)`valuedouble, NodesOf(sh.kids)`name
    decreases v, 0
  {
    match v
    case Null => sh.node.kind == KindNull
    case False => sh.node.kind == KindFalse
    case True => sh.node.kind == KindTrue
    case Number(r) => sh.node.kind == KindNumber && sh.node.valuedouble == r && sh.node.valueint == Truncate(r)
    case String(s) => sh.node.kind == KindString && sh.node.valuestring == Some(s)
    case Array(items) => sh.node.kind == KindArray && DenoteItems(sh.kids, items)
    case Object(members) => sh.node.kind == KindObject && DenoteMembers(sh.kids, members)
  }

  ghost predicate DenoteItems(kids: seq<Shape>, items: seq<Json>)
    reads NodesOf(kids)`kind, NodesOf(kids)`valuestring, NodesOf(kids)`valueint, NodesOf(kids)`valuedouble
    reads NodesOf(kids)`name
    decreases items, 1
  {
    |kids| == |items| && (kids == [] || (Denotes(kids[0], items[0]) && DenoteItems(kids[1..], items[1..])))
  }

  ghost predicate DenoteMembers(kids: seq<Shape>, members: seq<Member>)
    reads NodesOf(kids)`kind, NodesOf(kids)`valuestring, NodesOf(kids)`valueint, NodesOf(kids)`valuedouble
    reads NodesOf(kids)`name
    decreases members, 1
  {
    RootsAreNodes(kids);
    && |kids| == |members|
    && (kids == [] ||
        (kids[0].node.name == Some(members[0].name) && Denotes(kids[0], members[0].value)
         && DenoteMembers(kids[1..], members[1..])))
  }

  /** A shape's nodes are as old as the shape. */
  lemma {:induction false} NodesAllocated(kids: seq<Shape>)
    ensures allocated(NodesOf(kids))
    decreases kids
  {
    if kids != [] {
      NodesAllocated(kids[0].kids);
      NodesAllocated(kids[1..]);
      assert Nodes(kids[0]) == {kids[0].node} + NodesOf(kids[0].kids);
    }
  }

  // ----- appending to a list of trees -----

  lemma {:induction false} NodesOfAppend(kids: seq<Shape>, x: Shape)
    ensures NodesOf(kids + [x]) == NodesOf(kids) + Nodes(x)
    ensures Inner(kids + [x]) == Inner(kids) + NodesOf(x.kids)
  {
    if kids == [] {
      assert kids + [x] == [x];
    } else {
      assert (kids + [x])[1..] == kids[1..] + [x];
      NodesOfAppend(kids[1..], x);
    }
  }

  lemma {:induction false} ApartAppend(kids: seq<Shape>, x: Shape)
    ensures Apart(kids + [x]) <==> Apart(kids) && Distinct(x) && NodesOf(kids) !! Nodes(x)
  {
    if kids == [] {
      assert kids + [x] == [x];
    } else {
      assert (kids + [x])[1..] == kids[1..] + [x];
      ApartAppend(kids[1..], x);
      NodesOfAppend(kids[1..], x);
    }
  }

  lemma {:induction false} TreesAppend(kids: seq<Shape>, x: Shape)
    ensures Trees(kids + [x]) <==> Trees(kids) && Tree(x)
  {
    if kids == [] {
      assert kids + [x] == [x];
    } else {
      assert (kids + [x])[1..] == kids[1..] + [x];
      TreesAppend(kids[1..], x);
    }
  }

  lemma {:induction false} TreesAt(kids: seq<Shape>, k: nat)
    requires Trees(kids) && k < |kids|
    ensures Tree(kids[k])
    decreases k
  {
    if k > 0 {
      assert kids[k] == kids[1..][k - 1];
      TreesAt(kids[1..], k - 1);
    }
  }

  /** Among trees that share no node, no root lies below a root. */
  lemma {:induction false} RootNotInner(kids: seq<Shape>, k: nat)
    requires Apart(kids) && k < |kids|
    ensures kids[k].node !in Inner(kids)
  {
    InnerIsNodes(kids[1..]);
    RootsAreNodes(kids[1..]);
    if k > 0 {
      assert kids[k] == kids[1..][k - 1];
      RootNotInner(kids[1..], k - 1);
    }
  }
}
