/**
 Building, copying, referring to and freeing trees (`src/cJSON/cJSON.c`).
 */
module JsonTrees {
  import opened JsonText
  import opened JsonNodes
  import opened JsonLists

  /** Puts `item` behind `last`, the last child of `parent`. */
  method LinkAfter(parent: Node, last: Node, item: Node, ghost kids: seq<Shape>, ghost x: Shape)
    requires kids != [] && last == kids[|kids| - 1].node && item == x.node
    requires Linked(parent.child, Roots(kids)) && Trees(kids) && Tree(x)
    requires Apart(kids + [x]) && item.next == null
    modifies last`next, item`prev
    ensures Linked(parent.child, Roots(kids + [x])) && Trees(kids + [x])
  {
    RootsAreNodes(kids);
    InnerIsNodes(kids);
    ApartAppend(kids, x);
    RootNotInner(kids, |kids| - 1);
    NodesAllocated(kids);
    NodesAllocated(x.kids);
    assert Roots(kids + [x]) == Roots(kids) + [item];
    SuffixObject(last, item, parent.child, Roots(kids));
    assert Trees(kids) && Tree(x);
    TreesAppend(kids, x);
  }

  // ----- freeing -----

  /** What a tree owns: the nodes below one that is no reference.  `first` leads
      through the siblings of the list by `next`. */
  ghost predicate Owned(sh: Shape)
    reads Nodes(sh)`child, Nodes(sh)`isReference, NodesOf(sh.kids)`next
    decreases sh, 0
  {
    if sh.node.isReference then sh.kids == [] else OwnedList(sh.node.child, sh.kids)
  }

  ghost predicate OwnedList(first: Node?, kids: seq<Shape>)
    reads NodesOf(kids)`child, NodesOf(kids)`isReference, NodesOf(kids)`next
    decreases kids, 1
  {
    RootsAreNodes(kids);
    if kids == [] then first == null
    else first == kids[0].node && Owned(kids[0]) && OwnedList(kids[0].node.next, kids[1..])
  }

  /** `cJSON_Delete`: frees the item, its following siblings and all they own, each
      node once; nothing that is only referred to. */
  method Delete(item: Node?, pool: Pool, ghost kids: seq<Shape>)
    requires OwnedList(item, kids) && Apart(kids) && NodesOf(kids) <= pool.live
    modifies pool
    ensures pool.live == old(pool.live) - NodesOf(kids)
    decreases kids
  {
    var c := item;
    ghost var i := 0;
    while c != null
      invariant 0 <= i <= |kids| && OwnedList(c, kids[i..]) && Apart(kids[i..])
      invariant NodesOf(kids[i..]) <= NodesOf(kids) && NodesOf(kids[i..]) <= pool.live
      invariant pool.live == old(pool.live) - (NodesOf(kids) - NodesOf(kids[i..]))
      decreases |kids| - i
    {
      ghost var rest := kids[i..];
      assert rest[0] == kids[i] && rest[1..] == kids[i + 1..];
      ghost var before := pool.live;
      assert Owned(kids[i]) && Nodes(kids[i]) == {c} + NodesOf(kids[i].kids) && c !in NodesOf(kids[i].kids);
      assert if c.isReference then kids[i].kids == [] else OwnedList(c.child, kids[i].kids);
      var next := c.next;
      if !c.isReference && c.child != null {
        Delete(c.child, pool, kids[i].kids);
      }
      pool.Free(c);
      assert pool.live == before - Nodes(kids[i]);
      assert NodesOf(rest) == Nodes(kids[i]) + NodesOf(kids[i + 1..]);
      c := next;
      i := i + 1;
    }
  }

  // ----- copying -----

  /** `b` holds what `a` holds, node for node, and is no reference anywhere. */
  ghost predicate Copies(a: Shape, b: Shape)
    reads Nodes(a)`kind, Nodes(a)`valuestring, Nodes(a)`valueint, Nodes(a)`valuedouble, Nodes(a)`name
    reads Nodes(b)`kind, Nodes(b)`valuestring, Nodes(b)`valueint, Nodes(b)`valuedouble, Nodes(b)`name
    reads Nodes(b)`isReference
    decreases a, 0
  {
    SameContent(a.node, b.node) && !b.node.isReference && CopyLists(a.kids, b.kids)
  }

  ghost predicate SameContent(a: Node, b: Node)
    reads a`kind, a`valuestring, a`valueint, a`valuedouble, a`name
    reads b`kind, b`valuestring, b`valueint, b`valuedouble, b`name
  {
    && a.kind == b.kind && a.valuestring == b.valuestring && a.valueint == b.valueint
    && a.valuedouble == b.valuedouble && a.name == b.name
  }

  ghost predicate CopyLists(a: seq<Shape>, b: seq<Shape>)
    reads NodesOf(a)`kind, NodesOf(a)`valuestring, NodesOf(a)`valueint, NodesOf(a)`valuedouble, NodesOf(a)`name
    reads NodesOf(b)`kind, NodesOf(b)`valuestring, NodesOf(b)`valueint, NodesOf(b)`valuedouble, NodesOf(b)`name
    reads NodesOf(b)`isReference
    decreases a, 1
  {
    |a| == |b| && (a == [] || (Copies(a[0], b[0]) && CopyLists(a[1..], b[1..])))
  }

  lemma {:induction false} CopyListsAppend(a: seq<Shape>, b: seq<Shape>, x: Shape, y: Shape)
    requires |a| == |b|
    ensures CopyLists(a + [x], b + [y]) <==> CopyLists(a, b) && Copies(x, y)
    decreases a
  {
    if a == [] {
      assert a + [x] == [x] && b + [y] == [y];
    } else {
      assert (a + [x])[1..] == a[1..] + [x] && (b + [y])[1..] == b[1..] + [y];
      CopyListsAppend(a[1..], b[1..], x, y);
    }
  }

  /** A copy denotes what the original denotes. */
  lemma {:induction false} CopyDenotes(a: Shape, b: Shape, v: Json)
    requires Copies(a, b)
    ensures Denotes(a, v) <==> Denotes(b, v)
    decreases v, 0
  {
    match v
    case Array(items) => CopyDenotesItems(a.kids, b.kids, items);
    case Object(members) => CopyDenotesMembers(a.kids, b.kids, members);
    case _ =>
  }

  lemma {:induction false} CopyDenotesItems(a: seq<Shape>, b: seq<Shape>, items: seq<Json>)
    requires CopyLists(a, b)
    ensures DenoteItems(a, items) <==> DenoteItems(b, items)
    decreases items, 1
  {
    if a != [] && items != [] {
      CopyDenotes(a[0], b[0], items[0]);
      CopyDenotesItems(a[1..], b[1..], items[1..]);
    }
  }

  lemma {:induction false} CopyDenotesMembers(a: seq<Shape>, b: seq<Shape>, members: seq<Member>)
    requires CopyLists(a, b)
    ensures DenoteMembers(a, members) <==> DenoteMembers(b, members)
    decreases members, 1
  {
    if a != [] && members != [] {
      CopyDenotes(a[0], b[0], members[0].value);
      CopyDenotesMembers(a[1..], b[1..], members[1..]);
    }
  }

  /** The part of `cJSON_Duplicate` that copies one node. */
  method CopyNode(item: Node, pool: Pool) returns (newitem: Node)
    modifies pool
    ensures fresh(newitem) && pool.live == old(pool.live) + {newitem}
    ensures SameContent(item, newitem) && !newitem.isReference
    ensures newitem.next == null && newitem.prev == null && newitem.child == null
  {
    newitem := pool.NewItem();
    newitem.kind := item.kind;
    newitem.valueint, newitem.valuedouble := item.valueint, item.valuedouble;
    if item.valuestring.Some? {
      newitem.valuestring := item.valuestring;
    }
    if item.name.Some? {
      newitem.name := item.name;
    }
  }

  /** What a duplicate is: all new, linked as its shape, free of references and of
      links to anything else. */
  twostate predicate IsNewTree(new dup: Shape)
    reads Nodes(dup)
  {
    fresh(Nodes(dup)) && Tree(dup) && Distinct(dup) && dup.node.next == null && dup.node.prev == null
  }

  /** The copy so far: the first `i` children of `item` hang below `newitem`. */
  ghost predicate CopiedUpTo(item: Node, newitem: Node, from: seq<Shape>, i: nat, kids: seq<Shape>)
    reads item, newitem, NodesOf(from[..if i <= |from| then i else 0]), NodesOf(kids)
  {
    RootsAreNodes(kids);
    InnerIsNodes(kids);
    && i <= |from| && |kids| == i && newitem !in NodesOf(kids)
    && SameContent(item, newitem) && !newitem.isReference && newitem.next == null && newitem.prev == null
    && Linked(newitem.child, Roots(kids)) && Trees(kids) && Apart(kids)
    && CopyLists(from[..i], kids)
  }

  /** `cJSON_Duplicate` of an item that is not null. */
  method Duplicate(item: Node, recurse: bool, pool: Pool, ghost sh: Shape) returns (newitem: Node, ghost dup: Shape)
    requires sh.node == item && Tree(sh)
    modifies pool
    ensures newitem == dup.node && IsNewTree(dup)
    ensures pool.live == old(pool.live) + Nodes(dup)
    ensures recurse ==> Copies(sh, dup)
    ensures !recurse ==> dup.kids == [] && SameContent(item, newitem) && !newitem.isReference
    decreases sh, 1
  {
    NodesAllocated([sh]);
    newitem := CopyNode(item, pool);
    dup := Shape(newitem, []);
    if recurse {
      ghost var kids := DuplicateChildren(item, newitem, pool, sh);
      dup := Shape(newitem, kids);
      assert sh.kids[..|sh.kids|] == sh.kids;
    }
  }

  twostate lemma StaysTree(sh: Shape)
    requires old(allocated(Nodes(sh))) && old(Tree(sh)) && unchanged(Nodes(sh))
    ensures Tree(sh)
  {
  }

  /** Walks the chain of children. */
  method DuplicateChildren(item: Node, newitem: Node, pool: Pool, ghost sh: Shape) returns (ghost kids: seq<Shape>)
    requires sh.node == item && Tree(sh) && newitem !in Nodes(sh)
    requires CopiedUpTo(item, newitem, sh.kids, 0, [])
    modifies pool, newitem`child
    ensures CopiedUpTo(item, newitem, sh.kids, |sh.kids|, kids)
    ensures fresh(NodesOf(kids)) && pool.live == old(pool.live) + NodesOf(kids)
    decreases sh, 0, |sh.kids|
  {
    NodesAllocated([sh]);
    kids := [];
    var cptr, nptr: Node? := item.child, null;
    ghost var i := 0;
    while cptr != null
      invariant 0 <= i <= |sh.kids| && cptr == if i < |sh.kids| then sh.kids[i].node else null
      invariant nptr == Last(kids) && (nptr == null || fresh(nptr)) && CopiedUpTo(item, newitem, sh.kids, i, kids)
      invariant fresh(NodesOf(kids)) && pool.live == old(pool.live) + NodesOf(kids)
      invariant Tree(sh) && newitem !in NodesOf(kids)
      decreases |sh.kids| - i
    {
      ghost var x;
      nptr, cptr, x := DuplicateNext(item, newitem, nptr, cptr, pool, sh, i, kids);
      NodesOfAppend(kids, x);
      kids := kids + [x];
      i := i + 1;
    }
  }

  /** One turn of that loop. */
  method DuplicateNext(item: Node, newitem: Node, nptr: Node?, cptr: Node, pool: Pool, ghost sh: Shape, ghost i: nat,
                       ghost kids: seq<Shape>)
    returns (newchild: Node, next: Node?, ghost x: Shape)
    requires sh.node == item && Tree(sh) && i < |sh.kids| && cptr == sh.kids[i].node
    requires nptr == Last(kids) && CopiedUpTo(item, newitem, sh.kids, i, kids)
    requires Nodes(sh) !! {newitem} + NodesOf(kids)
    modifies pool, newitem`child, Just(nptr)`next
    ensures newchild == x.node && CopiedUpTo(item, newitem, sh.kids, i + 1, kids + [x])
    ensures fresh(Nodes(x)) && pool.live == old(pool.live) + Nodes(x)
    ensures Tree(sh) && next == if i + 1 < |sh.kids| then sh.kids[i + 1].node else null
    decreases sh, 0, i, 1
  {
    NodesAllocated([sh]);
    RootsAreNodes(kids);
    newchild, x := DuplicateChild(item, newitem, nptr, cptr, pool, sh, i, kids);
    StaysTree(sh);
    NextOf(item.child, Roots(sh.kids), i);
    next := cptr.next;
  }

  /** Copies a child and hangs the copy behind those made before. */
  method DuplicateChild(item: Node, newitem: Node, nptr: Node?, cptr: Node, pool: Pool, ghost sh: Shape, ghost i: nat,
                        ghost kids: seq<Shape>)
    returns (newchild: Node, ghost x: Shape)
    requires Tree(sh) && i < |sh.kids| && cptr == sh.kids[i].node
    requires nptr == Last(kids) && CopiedUpTo(item, newitem, sh.kids, i, kids)
    requires Nodes(sh) !! {newitem} + NodesOf(kids)
    modifies pool, newitem`child, Just(nptr)`next
    ensures newchild == x.node && CopiedUpTo(item, newitem, sh.kids, i + 1, kids + [x])
    ensures fresh(Nodes(x)) && pool.live == old(pool.live) + Nodes(x)
    decreases sh, 0, i, 0
  {
    TreesAt(sh.kids, i);
    NodesAllocated([sh]);
    NodesAllocated(kids);
    NodesAllocated(sh.kids[..i]);
    RootsAreNodes(kids);
    newchild, x := Duplicate(cptr, true, pool, sh.kids[i]);
    NodesOfAppend(kids, x);
    assert Nodes(x) !! NodesOf(kids);
    AttachCopy(item, newitem, nptr, newchild, sh.kids, i, kids, x);
  }

  lemma OneMoreCopy(from: seq<Shape>, i: nat, kids: seq<Shape>, x: Shape)
    requires i < |from| && i == |kids| && CopyLists(from[..i], kids) && Copies(from[i], x)
    ensures CopyLists(from[..i + 1], kids + [x])
  {
    assert from[..i + 1] == from[..i] + [from[i]];
    CopyListsAppend(from[..i], kids, from[i], x);
  }

  /** Hangs the copy of the next child behind the copies made before. */
  method AttachCopy(item: Node, newitem: Node, nptr: Node?, newchild: Node, ghost from: seq<Shape>, ghost i: nat,
                    ghost kids: seq<Shape>, ghost x: Shape)
    requires i < |from| && CopiedUpTo(item, newitem, from, i, kids) && nptr == Last(kids)
    requires x.node == newchild && Tree(x) && Distinct(x) && newchild.next == null && newchild.prev == null
    requires Copies(from[i], x) && Nodes(x) !! NodesOf(kids) && newitem !in Nodes(x)
    modifies newitem`child, Just(nptr)`next, newchild`prev
    ensures CopiedUpTo(item, newitem, from, i + 1, kids + [x])
  {
    RootsAreNodes(kids);
    NodesOfAppend(kids, x);
    ApartAppend(kids, x);
    OneMoreCopy(from, i, kids, x);
    NodesAllocated(from[..i + 1]);
    NodesAllocated(kids + [x]);
    AddChild(newitem, nptr, newchild, kids, x);
  }

  function Last(kids: seq<Shape>): Node? {
    if kids == [] then null else kids[|kids| - 1].node
  }

  /** Hangs a new child behind the last one, or as the first. */
  method AddChild(parent: Node, last: Node?, child: Node, ghost kids: seq<Shape>, ghost x: Shape)
    requires last == Last(kids) && child == x.node && child.next == null && child.prev == null
    requires Linked(parent.child, Roots(kids)) && Trees(kids) && Tree(x)
    requires Apart(kids + [x]) && parent !in NodesOf(kids + [x])
    modifies parent`child, Just(last)`next, child`prev
    ensures Linked(parent.child, Roots(kids + [x])) && Trees(kids + [x])
  {
    NodesOfAppend(kids, x);
    if last != null {
      LinkAfter(parent, last, child, kids, x);
    } else {
      NodesAllocated([x]);
      parent.child := child;
      assert kids + [x] == [x];
      assert Tree(x);
    }
  }
}
