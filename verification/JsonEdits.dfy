/**
 The edits of an array's children seen from the whole tree: which nodes stay
 allocated, which value the array holds afterwards, and what a reference shares
 (`src/cJSON/cJSON.c`).
 */
module JsonEdits {
  import opened CStrings
  import opened JsonText
  import opened JsonNodes
  import opened JsonLists
  import opened JsonTrees

  function Cut(kids: seq<Shape>, k: nat): seq<Shape>
    requires k < |kids|
  {
    kids[..k] + kids[k + 1..]
  }

  /** Every one of them is owned as its shape says. */
  ghost predicate OwnedAll(kids: seq<Shape>)
    reads NodesOf(kids)`child, NodesOf(kids)`isReference, Inner(kids)`next
    decreases kids, 1
  {
    kids == [] || (Owned(kids[0]) && OwnedAll(kids[1..]))
  }

  lemma {:induction false} OwnedAllIsOwnedList(first: Node?, kids: seq<Shape>)
    requires Linked(first, Roots(kids))
    ensures OwnedAll(kids) <==> OwnedList(first, kids)
  {
    OwnedFrom(first, kids, 0);
  }

  lemma {:induction false} OwnedFrom(first: Node?, kids: seq<Shape>, i: nat)
    requires Linked(first, Roots(kids)) && i <= |kids|
    ensures OwnedAll(kids[i..]) <==> OwnedList(if i < |kids| then kids[i].node else null, kids[i..])
    decreases |kids| - i
  {
    if i < |kids| {
      OwnedFrom(first, kids, i + 1);
      NextOf(first, Roots(kids), i);
      assert kids[i..][0] == kids[i] && kids[i..][1..] == kids[i + 1..];
    }
  }

  // ----- lists of trees put together -----

  lemma {:induction false} NodesOfConcat(a: seq<Shape>, b: seq<Shape>)
    ensures NodesOf(a + b) == NodesOf(a) + NodesOf(b)
  {
    if a == [] {
      assert a + b == b;
    } else {
      assert (a + b)[1..] == a[1..] + b;
      NodesOfConcat(a[1..], b);
    }
  }

  lemma {:induction false} ApartConcat(a: seq<Shape>, b: seq<Shape>)
    ensures Apart(a + b) <==> Apart(a) && Apart(b) && NodesOf(a) !! NodesOf(b)
  {
    if a == [] {
      assert a + b == b;
    } else {
      assert (a + b)[1..] == a[1..] + b;
      ApartConcat(a[1..], b);
      NodesOfConcat(a[1..], b);
    }
  }

  lemma {:induction false} OwnedConcat(a: seq<Shape>, b: seq<Shape>)
    ensures OwnedAll(a + b) <==> OwnedAll(a) && OwnedAll(b)
  {
    if a == [] {
      assert a + b == b;
    } else {
      assert (a + b)[1..] == a[1..] + b;
      OwnedConcat(a[1..], b);
    }
  }

  lemma {:induction false} TreesConcat(a: seq<Shape>, b: seq<Shape>)
    ensures Trees(a + b) <==> Trees(a) && Trees(b)
  {
    if a == [] {
      assert a + b == b;
    } else {
      assert (a + b)[1..] == a[1..] + b;
      TreesConcat(a[1..], b);
    }
  }

  lemma {:induction false} DenoteConcat(a: seq<Shape>, b: seq<Shape>, x: seq<Json>, y: seq<Json>)
    requires |a| == |x|
    ensures DenoteItems(a + b, x + y) <==> DenoteItems(a, x) && DenoteItems(b, y)
    decreases a
  {
    if a == [] {
      assert a + b == b && x + y == y;
    } else {
      assert (a + b)[1..] == a[1..] + b && (x + y)[1..] == x[1..] + y;
      DenoteConcat(a[1..], b, x[1..], y);
    }
  }

  /** A list around its element at `k`. */
  lemma Around(kids: seq<Shape>, k: nat)
    requires k < |kids|
    ensures kids == kids[..k] + ([kids[k]] + kids[k + 1..])
    ensures Roots(Cut(kids, k)) == Without(Roots(kids), k)
  {
  }

  lemma One(x: Shape)
    ensures NodesOf([x]) == Nodes(x) && (Apart([x]) <==> Distinct(x))
    ensures (OwnedAll([x]) <==> Owned(x)) && (Trees([x]) <==> Tree(x))
  {
  }

  /** What holds of a list holds of it without one element, and of that element. */
  lemma {:induction false} CutParts(kids: seq<Shape>, k: nat)
    requires k < |kids| && Apart(kids)
    ensures NodesOf(kids) == NodesOf(Cut(kids, k)) + Nodes(kids[k]) && NodesOf(Cut(kids, k)) !! Nodes(kids[k])
    ensures Apart(Cut(kids, k)) && Distinct(kids[k])
    ensures OwnedAll(kids) <==> OwnedAll(Cut(kids, k)) && Owned(kids[k])
    ensures Trees(kids) <==> Trees(Cut(kids, k)) && Tree(kids[k])
  {
    var a, x, b := kids[..k], kids[k], kids[k + 1..];
    Around(kids, k);
    One(x);
    NodesOfConcat(a, [x] + b); NodesOfConcat([x], b); NodesOfConcat(a, b);
    ApartConcat(a, [x] + b); ApartConcat([x], b); ApartConcat(a, b);
    OwnedConcat(a, [x] + b); OwnedConcat([x], b); OwnedConcat(a, b);
    TreesConcat(a, [x] + b); TreesConcat([x], b); TreesConcat(a, b);
  }

  lemma AllAllocated(kids: seq<Shape>)
    ensures allocated(NodesOf(kids)) && Inner(kids) <= NodesOf(kids)
  {
    NodesAllocated(kids);
    InnerIsNodes(kids);
  }

  /** Relinking the roots leaves what hangs below them as it was. */
  twostate lemma RelinkingKeeps(kids: seq<Shape>)
    requires old(allocated(NodesOf(kids)))
    requires unchanged(NodesOf(kids)`child) && unchanged(NodesOf(kids)`isReference)
    requires old(allocated(Inner(kids))) && unchanged(Inner(kids)`next) && unchanged(Inner(kids)`prev)
    ensures old(OwnedAll(kids)) ==> OwnedAll(kids)
    ensures old(Trees(kids)) ==> Trees(kids)
  {
  }

  lemma RootsNotInner(kids: seq<Shape>)
    requires Apart(kids)
    ensures forall n :: n in Roots(kids) ==> n !in Inner(kids)
  {
    forall n | n in Roots(kids) ensures n !in Inner(kids) {
      var k :| 0 <= k < |kids| && kids[k].node == n;
      RootNotInner(kids, k);
    }
  }

  // ----- deleting -----

  /** Detaching, with what the parent and the detached item then own. */
  method DetachOwned(parent: Node, which: int, ghost kids: seq<Shape>) returns (c: Node?)
    requires Linked(parent.child, Roots(kids)) && OwnedAll(kids) && Apart(kids) && parent !in NodesOf(kids)
    modifies parent`child, Roots(kids)`next, Roots(kids)`prev
    ensures Place(which) >= |kids| ==> c == null && Linked(parent.child, Roots(kids))
    ensures Place(which) < |kids| ==>
              && c == kids[Place(which)].node && c.next == null && c.prev == null
              && Linked(parent.child, Roots(Cut(kids, Place(which))))
    ensures OwnedAll(kids) && (old(Trees(kids)) ==> Trees(kids))
  {
    AllAllocated(kids);
    RootsNotInner(kids);
    c := DetachItemFromArray(parent, which, Roots(kids));
    RelinkingKeeps(kids);
    if c != null {
      Around(kids, Place(which));
    }
  }

  /** `cJSON_DeleteItemFromArray`: the element at a place goes, with all it owns
      and nothing else; an index past the end changes nothing. */
  method DeleteItemFromArray(parent: Node, which: int, pool: Pool, ghost kids: seq<Shape>)
    requires Linked(parent.child, Roots(kids)) && OwnedAll(kids) && Apart(kids)
    requires parent !in NodesOf(kids) && NodesOf(kids) <= pool.live
    modifies pool, parent`child, Roots(kids)`next, Roots(kids)`prev
    ensures Place(which) >= |kids| ==>
              Linked(parent.child, Roots(kids)) && OwnedAll(kids) && pool.live == old(pool.live)
    ensures Place(which) < |kids| ==>
              && Linked(parent.child, Roots(Cut(kids, Place(which)))) && OwnedAll(Cut(kids, Place(which)))
              && pool.live == old(pool.live) - Nodes(kids[Place(which)])
    ensures old(Trees(kids)) ==> Trees(kids)
  {
    AllAllocated(kids);
    RootsAreNodes(kids);
    var c := DetachOwned(parent, which, kids);
    if c != null {
      DeleteDetached(c, pool, kids, Place(which), parent, Roots(Cut(kids, Place(which))));
    } else {
      Delete(null, pool, []);
    }
  }

  /** Frees one tree of a list, once it is out of the list. */
  method DeleteDetached(c: Node, pool: Pool, ghost kids: seq<Shape>, ghost k: nat, ghost parent: Node,
                        ghost s: seq<Node>)
    requires k < |kids| && c == kids[k].node && c.next == null && Linked(parent.child, s)
    requires OwnedAll(kids) && Apart(kids) && NodesOf(kids) <= pool.live
    modifies pool
    ensures OwnedAll(Cut(kids, k)) && pool.live == old(pool.live) - Nodes(kids[k]) && Linked(parent.child, s)
  {
    CutParts(kids, k);
    One(kids[k]);
    AllAllocated(Cut(kids, k));
    assert OwnedList(null, []);
    assert [kids[k]][1..] == [];
    Delete(c, pool, [kids[k]]);
  }

  // ----- replacing -----

  /** The exchange, with what hangs below the nodes. */
  method ExchangeOwned(parent: Node, which: int, newitem: Node, ghost kids: seq<Shape>, ghost x: Shape)
    returns (c: Node?)
    requires Linked(parent.child, Roots(kids)) && OwnedAll(kids + [x]) && Apart(kids + [x])
    requires x.node == newitem && parent !in NodesOf(kids + [x])
    modifies parent`child, Roots(kids)`next, Roots(kids)`prev, newitem`next, newitem`prev
    ensures Place(which) >= |kids| ==> c == null && Linked(parent.child, Roots(kids))
    ensures Place(which) < |kids| ==>
              && c == kids[Place(which)].node && c.next == null && c.prev == null
              && Linked(parent.child, Roots(kids[Place(which) := x]))
    ensures OwnedAll(kids + [x]) && (old(Trees(kids + [x])) ==> Trees(kids + [x]))
  {
    ghost var all := kids + [x];
    AllAllocated(all);
    RootsNotInner(all);
    assert forall i :: 0 <= i < |kids| ==> Roots(kids)[i] == Roots(all)[i];
    assert newitem == Roots(all)[|kids|];
    NewRoot(kids, x);
    c := Exchange(parent, which, newitem, Roots(kids));
    RelinkingKeeps(all);
    if c != null {
      assert Roots(kids[Place(which) := x]) == Roots(kids)[Place(which) := newitem];
    }
  }

  lemma NewRoot(kids: seq<Shape>, x: Shape)
    requires Apart(kids + [x])
    ensures Apart(kids) && x.node !in Roots(kids)
  {
    ApartAppend(kids, x);
    RootsAreNodes(kids);
  }

  /** `cJSON_ReplaceItemInArray`: the new item takes the place, what it displaces
      is freed with all it owns. */
  method ReplaceItemInArray(parent: Node, which: int, newitem: Node, pool: Pool, ghost kids: seq<Shape>, ghost x: Shape)
    requires Linked(parent.child, Roots(kids)) && OwnedAll(kids + [x]) && Apart(kids + [x])
    requires x.node == newitem && parent !in NodesOf(kids + [x]) && NodesOf(kids) <= pool.live
    modifies pool, parent`child, Roots(kids)`next, Roots(kids)`prev, newitem`next, newitem`prev
    ensures Place(which) >= |kids| ==>
              Linked(parent.child, Roots(kids)) && OwnedAll(kids) && pool.live == old(pool.live)
    ensures Place(which) < |kids| ==>
              && Linked(parent.child, Roots(kids[Place(which) := x])) && OwnedAll(kids[Place(which) := x])
              && pool.live == old(pool.live) - Nodes(kids[Place(which)])
    ensures old(Trees(kids + [x])) ==> Trees(kids + [x])
  {
    AllAllocated(kids + [x]);
    NewRoot(kids, x);
    RootsAreNodes(kids + [x]);
    var c := ExchangeOwned(parent, which, newitem, kids, x);
    OwnedConcat(kids, [x]);
    One(x);
    if c != null {
      PutParts(kids, Place(which), x);
      AllAllocated(kids[Place(which) := x]);
      DeleteDetached(c, pool, kids, Place(which), parent, Roots(kids[Place(which) := x]));
    }
  }

  lemma PutParts(kids: seq<Shape>, k: nat, x: Shape)
    requires k < |kids| && Apart(kids)
    ensures OwnedAll(kids) && Owned(x) ==> OwnedAll(kids[k := x])
    ensures Trees(kids) && Tree(x) ==> Trees(kids[k := x])
    ensures Roots(kids[k := x]) == Roots(kids)[k := x.node]
  {
    var a, b := kids[..k], kids[k + 1..];
    Around(kids, k);
    AroundNew(kids, k, x);
    ExchangeParts(a, kids[k], x, b);
  }

  lemma AroundNew(kids: seq<Shape>, k: nat, x: Shape)
    requires k < |kids|
    ensures kids[k := x] == kids[..k] + ([x] + kids[k + 1..])
    ensures Roots(kids[k := x]) == Roots(kids)[k := x.node]
  {
  }

  lemma ExchangeParts(a: seq<Shape>, y: Shape, x: Shape, b: seq<Shape>)
    ensures OwnedAll(a + ([y] + b)) && Owned(x) ==> OwnedAll(a + ([x] + b))
    ensures Trees(a + ([y] + b)) && Tree(x) ==> Trees(a + ([x] + b))
  {
    One(x);
    OwnedConcat(a, [y] + b); OwnedConcat([y], b); OwnedConcat(a, [x] + b); OwnedConcat([x], b);
    TreesConcat(a, [y] + b); TreesConcat([y], b); TreesConcat(a, [x] + b); TreesConcat([x], b);
  }

  // ----- the value of an edited array -----

  /** Appending, replacing and cutting out an element do the same to the value. */
  lemma EditsDenote(kids: seq<Shape>, items: seq<Json>, k: nat, x: Shape, v: Json)
    requires DenoteItems(kids, items) && k < |kids| && Denotes(x, v)
    ensures DenoteItems(Cut(kids, k), items[..k] + items[k + 1..])
    ensures DenoteItems(kids[k := x], items[k := v])
    ensures DenoteItems(kids + [x], items + [v])
  {
    var a, b := kids[..k], kids[k + 1..];
    var i, j := items[..k], items[k + 1..];
    assert DenoteItems([x], [v]);
    Around(kids, k);
    assert items == i + ([items[k]] + j);
    assert kids[k := x] == a + ([x] + b) && items[k := v] == i + ([v] + j);
    DenoteConcat(a, [kids[k]] + b, i, [items[k]] + j);
    DenoteConcat([kids[k]], b, [items[k]], j);
    DenoteConcat([x], b, [v], j);
    DenoteConcat(a, [x] + b, i, [v] + j);
    DenoteConcat(a, b, i, j);
    DenoteConcat(kids, [x], items, [v]);
  }

  // ----- appending and referring -----

  /** Appending an item, with what the parent then owns. */
  method AddOwned(parent: Node, item: Node, ghost kids: seq<Shape>, ghost x: Shape)
    requires Linked(parent.child, Roots(kids)) && OwnedAll(kids + [x]) && Apart(kids + [x])
    requires x.node == item && item.next == null && item.prev == null && parent !in NodesOf(kids + [x])
    modifies parent`child, Roots(kids)`next, item`prev
    ensures Linked(parent.child, Roots(kids + [x])) && OwnedAll(kids + [x])
    ensures old(Trees(kids + [x])) ==> Trees(kids + [x])
  {
    ghost var all := kids + [x];
    AllAllocated(all);
    RootsNotInner(all);
    assert forall i :: 0 <= i < |kids| ==> Roots(kids)[i] == Roots(all)[i];
    assert item == Roots(all)[|kids|];
    NewRoot(kids, x);
    assert Roots(all) == Roots(kids) + [item];
    AddItemToArray(parent, item, Roots(kids));
    RelinkingKeeps(all);
  }

  /** What a reference has in common with the item it was made from. */
  twostate predicate RefersTo(new ref: Node, item: Node)
    reads ref
  {
    && ref.isReference && ref.name == Nothing && ref.child == old(item.child) && ref.kind == old(item.kind)
    && ref.valuestring == old(item.valuestring) && ref.valueint == old(item.valueint)
    && ref.valuedouble == old(item.valuedouble)
  }

  /** `create_reference`, where allocation succeeds. */
  method CreateReference(item: Node, pool: Pool) returns (ref: Node)
    modifies pool
    ensures fresh(ref) && pool.live == old(pool.live) + {ref}
    ensures RefersTo(ref, item) && ref.next == null && ref.prev == null
  {
    ref := pool.NewItem();
    ref.child, ref.kind := item.child, item.kind;
    ref.valuestring, ref.valueint, ref.valuedouble := item.valuestring, item.valueint, item.valuedouble;
    ref.name := Nothing;
    ref.isReference := true;
    ref.next, ref.prev := null, null;
  }

  /** `cJSON_AddItemReferenceToArray`: what is appended owns nothing but itself. */
  method AddItemReferenceToArray(parent: Node, item: Node, pool: Pool, ghost kids: seq<Shape>) returns (ghost ref: Node)
    requires Linked(parent.child, Roots(kids)) && OwnedAll(kids) && Apart(kids) && parent !in NodesOf(kids)
    modifies pool, parent`child, Roots(kids)`next
    ensures fresh(ref) && pool.live == old(pool.live) + {ref} && RefersTo(ref, item)
    ensures Linked(parent.child, Roots(kids + [Shape(ref, [])])) && OwnedAll(kids + [Shape(ref, [])])
    ensures Apart(kids + [Shape(ref, [])])
  {
    AllAllocated(kids);
    RootsAreNodes(kids);
    var made := CreateReference(item, pool);
    ref := made;
    WithReference(kids, made);
    AddOwned(parent, made, kids, Shape(made, []));
  }

  lemma WithReference(kids: seq<Shape>, ref: Node)
    requires OwnedAll(kids) && Apart(kids) && ref !in NodesOf(kids) && ref.isReference
    ensures OwnedAll(kids + [Shape(ref, [])]) && Apart(kids + [Shape(ref, [])])
    ensures NodesOf(kids + [Shape(ref, [])]) == NodesOf(kids) + {ref}
  {
    var x := Shape(ref, []);
    OwnedConcat(kids, [x]);
    One(x);
    ApartAppend(kids, x);
    NodesOfAppend(kids, x);
  }

  /** A reference holds the value of the item as long as the two have the same
      children, and its tree is the item's. */
  lemma {:induction false} ReferenceDenotes(ref: Node, sh: Shape, v: Json)
    requires ref.kind == sh.node.kind && ref.valuestring == sh.node.valuestring && ref.valueint == sh.node.valueint
    requires ref.valuedouble == sh.node.valuedouble && ref.child == sh.node.child
    ensures Denotes(Shape(ref, sh.kids), v) <==> Denotes(sh, v)
    ensures Tree(Shape(ref, sh.kids)) <==> Tree(sh)
  {
    match v
    case Array(items) =>
    case Object(members) =>
    case _ =>
  }
}
