/**
 The list edits of `src/cJSON/cJSON.c`, as the sequence operations they carry
 out on a parent's children.
 */
module JsonLists {
  import opened JsonNodes

  function Without(s: seq<Node>, k: nat): seq<Node>
    requires k < |s|
  {
    s[..k] + s[k + 1..]
  }

  /** The place an index names: a negative one means the first. */
  function Place(which: int): nat {
    if which < 0 then 0 else which
  }

  lemma NextOf(first: Node?, s: seq<Node>, k: nat)
    requires Linked(first, s) && k < |s|
    ensures s[k].next == if k + 1 < |s| then s[k + 1] else null
    ensures s[k].prev == if k > 0 then s[k - 1] else null
  {
    assert k + 1 < |s| ==> s[k + 1 - 1].next == s[k + 1];
  }

  function Just(item: Node?): set<Node> {
    if item == null then {} else {item}
  }

  /** `suffix_object` on the last node of a list. */
  method SuffixObject(prev: Node, item: Node, ghost first: Node?, ghost s: seq<Node>)
    requires s != [] && Linked(first, s) && prev == s[|s| - 1]
    requires item !in s && item.next == null
    modifies prev`next, item`prev
    ensures Linked(first, s + [item])
  {
    LinkedIsDifferent(first, s);
    ghost var t := s + [item];
    prev.next := item;
    item.prev := prev;
    assert s[0] in s && t[0] == s[0];
    forall i | 0 < i < |t| ensures t[i].prev == t[i - 1] && t[i - 1].next == t[i] {
      if i < |s| {
        assert s[i - 1] != prev && s[i] != item;
      }
    }
  }

  /** Appends an item that is in no list; a null item is ignored. */
  method AddItemToArray(parent: Node, item: Node?, ghost s: seq<Node>)
    requires Linked(parent.child, s)
    requires item != null ==> item !in s && item.next == null && item.prev == null
    modifies parent`child, s`next, Just(item)`prev
    ensures Linked(parent.child, if item == null then s else s + [item])
    ensures item == null ==> parent.child == old(parent.child)
  {
    var c := parent.child;
    if item == null {
      return;
    }
    if c == null {
      parent.child := item;
      assert s + [item] == [item];
    } else {
      ghost var k := 0;
      LinkedIsDifferent(parent.child, s);
      NextOf(parent.child, s, 0);
      while c.next != null
        invariant 0 <= k < |s| && c == s[k]
        invariant c.next == if k + 1 < |s| then s[k + 1] else null
        invariant unchanged(parent, item, s)
        decreases |s| - k
      {
        c := c.next;
        k := k + 1;
        NextOf(parent.child, s, k);
      }
      SuffixObject(c, item, parent.child, s);
    }
  }

  method GetArraySize(parent: Node, ghost s: seq<Node>) returns (i: nat)
    requires Linked(parent.child, s)
    ensures i == |s|
  {
    var c := parent.child;
    i := 0;
    while c != null
      invariant 0 <= i <= |s| && c == if i < |s| then s[i] else null
      decreases |s| - i
    {
      NextOf(parent.child, s, i);
      i := i + 1;
      c := c.next;
    }
  }

  /** The child at a place, or null past the end. */
  method GetArrayItem(parent: Node, item: int, ghost s: seq<Node>) returns (c: Node?)
    requires Linked(parent.child, s)
    ensures c == if Place(item) < |s| then s[Place(item)] else null
  {
    c := parent.child;
    var left := item;
    ghost var k := 0;
    while c != null && left > 0
      invariant 0 <= k <= |s| && c == if k < |s| then s[k] else null
      invariant if item <= 0 then left == item && k == 0 else left == item - k && 0 <= left
      decreases |s| - k
    {
      NextOf(parent.child, s, k);
      left := left - 1;
      c := c.next;
      k := k + 1;
    }
  }

  /** Takes the child at a place out of the list and hands it over unlinked; an
      index past the end changes nothing. */
  method DetachItemFromArray(parent: Node, which: int, ghost s: seq<Node>) returns (c: Node?)
    requires Linked(parent.child, s)
    modifies parent`child, s`next, s`prev
    ensures Place(which) >= |s| ==> c == null && Linked(parent.child, s)
    ensures Place(which) < |s| ==>
              && c == s[Place(which)] && c.next == null && c.prev == null
              && Linked(parent.child, Without(s, Place(which)))
  {
    c := GetArrayItem(parent, which, s);
    if c == null {
      return null;
    }
    ghost var k := Place(which);
    LinkedIsDifferent(parent.child, s);
    NextOf(parent.child, s, k);
    if c.prev != null {
      c.prev.next := c.next;
    }
    if c.next != null {
      c.next.prev := c.prev;
    }
    if c == parent.child {
      parent.child := c.next;
    }
    c.prev, c.next := null, null;
    ghost var t := Without(s, k);
    assert forall i :: 0 <= i < |t| ==> t[i] == if i < k then s[i] else s[i + 1];
    forall i | 0 < i < |t| ensures t[i].prev == t[i - 1] && t[i - 1].next == t[i] {
      assert t[i] == if i < k then s[i] else s[i + 1];
      assert t[i - 1] == if i <= k then s[i - 1] else s[i];
    }
  }

  /** The relinking part of `cJSON_ReplaceItemInArray`: the new item takes the
      place of the child it displaces, which is handed over unlinked. */
  method Exchange(parent: Node, which: int, newitem: Node, ghost s: seq<Node>) returns (c: Node?)
    requires Linked(parent.child, s) && newitem !in s
    modifies parent`child, s`next, s`prev, newitem`next, newitem`prev
    ensures Place(which) >= |s| ==> c == null && Linked(parent.child, s)
    ensures Place(which) < |s| ==>
              && c == s[Place(which)] && c.next == null && c.prev == null
              && Linked(parent.child, s[Place(which) := newitem])
  {
    c := GetArrayItem(parent, which, s);
    if c == null {
      return null;
    }
    ghost var k := Place(which);
    LinkedIsDifferent(parent.child, s);
    NextOf(parent.child, s, k);
    newitem.next := c.next;
    newitem.prev := c.prev;
    if newitem.next != null {
      newitem.next.prev := newitem;
    }
    if c == parent.child {
      parent.child := newitem;
    } else {
      newitem.prev.next := newitem;
    }
    c.next, c.prev := null, null;
    ghost var t := s[k := newitem];
    forall i | 0 < i < |t| ensures t[i].prev == t[i - 1] && t[i - 1].next == t[i] {
      assert t[i] == if i == k then newitem else s[i];
      assert t[i - 1] == if i - 1 == k then newitem else s[i - 1];
    }
  }
}
