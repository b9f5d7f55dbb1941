/**
 Parsing, copying and freeing put together: what `src/cJSON/cJSON.h` asks of the
 caller, to delete what it was given, frees all of it and nothing else.
 */
module JsonLifetimes {
  import opened JsonText
  import opened JsonNodes
  import opened JsonTrees
  import opened JsonEdits
  import opened JsonParser
  import Spec = JsonParse

  // ----- a copy belongs to its root -----

  lemma {:induction false} CopyIsOwned(a: Shape, b: Shape)
    requires Copies(a, b) && Tree(b)
    ensures Owned(b)
    decreases b, 0
  {
    CopiesAreOwned(a.kids, b.kids);
    OwnedAllIsOwnedList(b.node.child, b.kids);
  }

  lemma {:induction false} CopiesAreOwned(a: seq<Shape>, b: seq<Shape>)
    requires CopyLists(a, b) && Trees(b)
    ensures OwnedAll(b)
    decreases b, 1
  {
    if b != [] {
      CopyIsOwned(a[0], b[0]);
      CopiesAreOwned(a[1..], b[1..]);
    }
  }

  /** What a duplicate is for whoever asked for it. */
  lemma {:induction false} CopyStands(a: Shape, b: Shape)
    requires Copies(a, b) && Tree(b) && Distinct(b) && b.node.next == null && b.node.prev == null
    ensures Standing(b.node, b.kids)
  {
    CopiesAreOwned(a.kids, b.kids);
  }

  lemma StandingIsTree(item: Node, kids: seq<Shape>)
    requires Standing(item, kids)
    ensures Tree(Shape(item, kids)) && Distinct(Shape(item, kids)) && Owned(Shape(item, kids))
  {
    OwnedAllIsOwnedList(item.child, kids);
  }

  // ----- and deleting it frees what was allocated -----

  /** A text parsed and the result deleted: nothing stays allocated. */
  method ParseAndDelete(parser: Parser, t: string, whole: bool) returns (parsed: bool)
    requires !Spec.ParseDocument(t, whole).Unmodelled?
    modifies parser, parser.pool
    ensures parsed <==> Spec.ParseDocument(t, whole).Parsed?
    ensures parser.pool.live == old(parser.pool.live)
  {
    var c, end, kids := parser.ParseWithOpts(t, whole);
    parsed := c != null;
    if c != null {
      parser.DeleteRoot(c, kids);
    }
  }

  /** The same with a copy made in between: the copy outlives the original, and holds
      its value in exactly the nodes that are left. */
  method ParseCopyDelete(parser: Parser, t: string, whole: bool) returns (copy: Node?, ghost kids: seq<Shape>)
    requires !Spec.ParseDocument(t, whole).Unmodelled?
    modifies parser, parser.pool
    ensures match Spec.ParseDocument(t, whole)
            case Parsed(v, _) =>
              && copy != null && Standing(copy, kids) && Denotes(Shape(copy, kids), v)
              && fresh(Nodes(Shape(copy, kids))) && parser.pool.live == old(parser.pool.live) + Nodes(Shape(copy, kids))
            case Rejected(_) => copy == null && parser.pool.live == old(parser.pool.live)
            case Unmodelled => false
  {
    var c, end, from := parser.ParseWithOpts(t, whole);
    if c == null {
      return null, [];
    }
    ghost var sh := Shape(c, from);
    StandingIsTree(c, from);
    ghost var dup;
    copy, dup := Duplicate(c, true, parser.pool, sh);
    kids := dup.kids;
    CopyStands(sh, dup);
    CopyDenotes(sh, dup, Spec.ParseDocument(t, whole).value);
    parser.DeleteRoot(c, from);
  }

  /** Any tree duplicated, whole or its root alone, and the duplicate deleted. */
  method DuplicateAndDelete(item: Node, recurse: bool, pool: Pool, ghost sh: Shape)
    requires sh.node == item && Tree(sh)
    modifies pool
    ensures pool.live == old(pool.live)
  {
    ghost var copy;
    var dup;
    dup, copy := Duplicate(item, recurse, pool, sh);
    if recurse {
      CopyIsOwned(sh, copy);
    }
    One(copy);
    assert OwnedList(null, []) && [copy][1..] == [];
    Delete(dup, pool, [copy]);
  }

  lemma StandingTogether(parent: Node, kids: seq<Shape>, x: Shape)
    requires Standing(parent, kids) && Standing(x.node, x.kids) && NodesOf(kids) !! Nodes(x)
    ensures OwnedAll(kids + [x]) && Apart(kids + [x]) && Trees(kids + [x])
    ensures NodesOf(kids + [x]) == NodesOf(kids) + Nodes(x)
  {
    StandingIsTree(x.node, x.kids);
    NodesOfAppend(kids, x);
    ApartAppend(kids, x);
    OwnedConcat(kids, [x]);
    TreesAppend(kids, x);
    One(x);
  }

  /** A tree of its own appended to an array: one tree, holding one value more. */
  method AppendStanding(parent: Node, item: Node, ghost kids: seq<Shape>, ghost x: Shape, ghost items: seq<Json>,
                        ghost v: Json)
    requires x.node == item && Standing(parent, kids) && Standing(item, x.kids)
    requires NodesOf(kids) !! Nodes(x) && parent !in Nodes(x)
    requires Denotes(Shape(parent, kids), Array(items)) && Denotes(x, v)
    modifies parent`child, Roots(kids)`next, item`prev
    ensures Standing(parent, kids + [x]) && Denotes(Shape(parent, kids + [x]), Array(items + [v]))
  {
    StandingTogether(parent, kids, x);
    RootsAreNodes(kids);
    DenoteAppend(kids, items, x, v);
    AllAllocated(kids + [x]);
    AddOwned(parent, item, kids, x);
  }

  /** A text parsed and its value appended to an array: the tree then owns what was
      allocated for it, and can be deleted as a whole. */
  method ParseInto(parser: Parser, parent: Node, t: string, whole: bool, ghost kids: seq<Shape>, ghost items: seq<Json>)
    returns (ghost more: seq<Shape>)
    requires !Spec.ParseDocument(t, whole).Unmodelled?
    requires Standing(parent, kids) && Denotes(Shape(parent, kids), Array(items))
    modifies parser, parser.pool, parent`child, Roots(kids)`next
    ensures Standing(parent, kids + more) && fresh(NodesOf(more))
    ensures parser.pool.live == old(parser.pool.live) + NodesOf(more)
    ensures match Spec.ParseDocument(t, whole)
            case Parsed(v, _) => Denotes(Shape(parent, kids + more), Array(items + [v]))
            case Rejected(_) => more == []
            case Unmodelled => false
  {
    AllAllocated(kids);
    RootsAreNodes(kids);
    var c, end, below := parser.ParseWithOpts(t, whole);
    if c == null {
      more := [];
      assert kids + more == kids;
    } else {
      more := [Shape(c, below)];
      One(more[0]);
      AppendStanding(parent, c, kids, more[0], items, Spec.ParseDocument(t, whole).value);
    }
  }
}
