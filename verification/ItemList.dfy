/**
  The child list of an array or object: nodes linked both ways and edited in
  place. In a well-formed list the head has no predecessor. After a sort it may
  keep an old one, and then not every edit is safe.
 */
module ItemList {
  import opened Json

  class Item {
    const member: Member
    var next: Item?
    var prev: Item?

    constructor (member: Member)
      ensures this.member == member && next == null && prev == null
    {
      this.member := member;
      next, prev := null, null;
    }
  }

  ghost function Head(s: seq<Item>): Item? {
    if s == [] then null else s[0]
  }

  // Neighbours point to each other. What the two ends point to is open.
  ghost predicate Linked(s: seq<Item>)
    reads s
  {
    && (forall i, j :: 0 <= i < j < |s| ==> s[i] != s[j])
    && (forall i, j :: 0 <= i && j == i + 1 < |s| ==> s[i].next == s[j] && s[j].prev == s[i])
  }

  ghost predicate Chain(s: seq<Item>)
    reads s
  {
    Linked(s) && (s != [] ==> s[|s| - 1].next == null)
  }

  // A list that leads back to its head has no end.
  lemma {:induction false} NoChainBackToHead(s: seq<Item>, j: nat)
    requires j < |s| && s[j].next == s[0]
    ensures !Chain(s)
  {
    assert j + 1 < |s| ==> s[j].next != s[j + 1] || s[j + 1] == s[0];
  }

  // Nor is the rest of a list one if one of its nodes leads back to its first.
  lemma {:induction false} HeadStillLinked(s: seq<Item>, p: Item)
    requires s != [] && p in s[1..] && p.next == s[1]
    ensures !Chain(Without(s, 0))
  {
    var t := Without(s, 0);
    assert t == s[1..];
    var j :| 0 <= j < |t| && t[j] == p;
    NoChainBackToHead(t, j);
  }

  // A list in which only the node at k may be linked in another way.
  ghost predicate LinkedAround(s: seq<Item>, k: nat)
    requires k < |s|
    reads s
  {
    && (forall i, j :: 0 <= i < j < |s| ==> s[i] != s[j])
    && (forall i, j :: 0 <= i && j == i + 1 < |s| && i != k && j != k ==> s[i].next == s[j] && s[j].prev == s[i])
    && (k + 1 < |s| ==> s[|s| - 1].next == null)
  }

  // Without that node it is a list if the neighbours of the node are linked.
  lemma {:induction false} Rejoined(s: seq<Item>, k: nat)
    requires k < |s| && LinkedAround(s, k)
    requires 0 < k ==> s[k - 1].next == NodeAt(s, k + 1)
    requires 0 < k < |s| - 1 ==> s[k + 1].prev == s[k - 1]
    ensures Chain(Without(s, k))
  {
    var t := Without(s, k);
    assert forall i :: 0 <= i < |t| ==> t[i] == s[if i < k then i else i + 1];
    forall i, j | 0 <= i && j == i + 1 < |t|
      ensures t[i].next == t[j] && t[j].prev == t[i]
    {
    }
  }

  // With another node in its place it is one if that is linked to its neighbours.
  lemma {:induction false} Substituted(s: seq<Item>, k: nat, x: Item)
    requires k < |s| && LinkedAround(s, k) && x !in s
    requires x.next == NodeAt(s, k + 1)
    requires 0 < k ==> x.prev == s[k - 1] && s[k - 1].next == x
    requires k + 1 < |s| ==> s[k + 1].prev == x
    ensures Chain(s[k := x])
  {
    var t := s[k := x];
    forall i, j | 0 <= i && j == i + 1 < |t|
      ensures t[i].next == t[j] && t[j].prev == t[i]
    {
    }
  }

  // The node of a chain at an index; null behind the end.
  ghost function NodeAt(s: seq<Item>, i: nat): Item? {
    if i < |s| then s[i] else null
  }

  class Container {
    var child: Item?
    ghost var items: seq<Item>

    // The list that starts at child, whatever its head takes for its predecessor.
    ghost predicate Loose()
      reads this, items
    {
      Chain(items) && child == Head(items)
    }

    ghost predicate Valid()
      reads this, items
    {
      Loose() && (items != [] ==> items[0].prev == null)
    }

    // What the head takes for its predecessor is not one of the nodes behind it.
    ghost predicate HeadIsSafe()
      reads this, items
    {
      items != [] ==> items[0].prev == null || items[0].prev !in items[1..]
    }

    constructor ()
      ensures Valid() && items == []
    {
      child, items := null, [];
    }

    // The loop of get_array_item, detach_item_from_array and insert_item_in_array:
    // the node, and how many steps were left when the list ended.
    method Walk(which: nat) returns (node: Item?, left: nat)
      requires Loose()
      ensures node == NodeAt(items, which)
      ensures left == if which <= |items| then 0 else which - |items|
    {
      node, left := child, which;
      ghost var k := 0;
      while node != null && left > 0
        invariant k <= |items| && k + left == which && node == NodeAt(items, k)
        decreases left
      {
        assert k + 1 < |items| ==> node.next == items[k + 1];
        node, left, k := node.next, left - 1, k + 1;
      }
    }

    // cJSON_AddItemToArray
    method AddItem(item: Item)
      requires Loose() && item !in items && item.next == null && item.prev == null
      modifies this, items, item
      ensures Loose() && items == old(items) + [item] && (old(Valid()) ==> Valid())
    {
      if child == null {
        child := item;
      } else {
        var last: Item := child;
        ghost var k := 0;
        while last.next != null
          invariant 0 <= k < |items| && last == items[k]
          invariant last.next == NodeAt(items, k + 1)
          decreases |items| - k
        {
          last, k := last.next, k + 1;
        }
        // suffix_object
        last.next := item;
        item.prev := last;
      }
      items := items + [item];
    }

    // What insert_item_in_array and cJSON_InsertItemInArray do in front of a node.
    method InsertBefore(node: Item, newitem: Item, ghost k: nat)
      requires Loose() && k < |items| && items[k] == node
      requires newitem !in items
      modifies this, items, newitem
      ensures Loose() && items == Inserted(old(items), k, newitem) && (old(Valid()) ==> Valid())
    {
      ghost var was := items;
      assert k > 0 ==> was[k - 1].next == node && node.prev == was[k - 1];
      newitem.next := node;
      newitem.prev := node.prev;
      node.prev := newitem;
      if node == child {
        child := newitem;
      } else {
        newitem.prev.next := newitem;
      }
      items := Inserted(was, k, newitem);
      assert forall i :: 0 <= i < |items| ==>
             items[i] == if i < k then was[i] else if i == k then newitem else was[i - 1];
    }

    // insert_item_in_array
    method InsertItem(which: nat, newitem: Item) returns (ok: bool)
      requires Loose() && newitem !in items && newitem.next == null && newitem.prev == null
      modifies this, items, newitem
      ensures Loose() && (ok <==> which <= |old(items)|) && (old(Valid()) ==> Valid())
      ensures items == if ok then Inserted(old(items), which, newitem) else old(items)
    {
      var node, left := Walk(which);
      if left > 0 {
        return false;
      }
      if node == null {
        AddItem(newitem);
      } else {
        InsertBefore(node, newitem, which);
      }
      ok := true;
    }

    // cJSON_InsertItemInArray appends where insert_item_in_array refuses.
    method InsertItemInArray(which: int, newitem: Item)
      requires Loose() && newitem !in items && newitem.next == null && newitem.prev == null
      modifies this, items, newitem
      ensures Loose() && (old(Valid()) ==> Valid())
      ensures items == if which < 0 then old(items)
                       else if which < |old(items)| then Inserted(old(items), which, newitem)
                       else old(items) + [newitem]
    {
      if which < 0 {
        return;
      }
      var node, left := Walk(which);
      if node == null {
        AddItem(newitem);
      } else {
        InsertBefore(node, newitem, which);
      }
    }

    // cJSON_DetachItemViaPointer. Detaching the head writes to what it takes for its
    // predecessor; what is left is the rest of the list exactly if that is harmless.
    method DetachViaPointer(item: Item, ghost k: nat)
      requires Loose() && k < |items| && items[k] == item
      modifies this, items, if item.prev == null then {} else {item.prev}
      ensures items == Without(old(items), k) && child == Head(items)
      ensures item.next == null && item.prev == null
      ensures Loose() <==> k > 0 || old(HeadIsSafe())
      ensures old(Valid()) ==> Valid()
      ensures k == 0 && items != [] ==> items[0].prev == old(item.prev)
      ensures k == 0 && !old(HeadIsSafe()) ==> old(item.prev).next == items[0]
    {
      ghost var was, p := items, item.prev;
      assert k > 0 ==> was[k - 1].next == item && p == was[k - 1];
      assert k + 1 < |was| ==> item.next == was[k + 1] && was[k + 1].prev == item;
      if item.prev != null {
        item.prev.next := item.next;
      }
      if item.next != null {
        item.next.prev := item.prev;
      }
      if item == child {
        child := item.next;
      }
      item.prev := null;
      item.next := null;
      items := Without(was, k);
      if k == 0 && p != null && p in was[1..] {
        HeadStillLinked(was, p);
      } else {
        assert LinkedAround(was, k);
        Rejoined(was, k);
      }
    }

    // detach_item_from_array
    method DetachItem(which: nat) returns (item: Item?)
      requires Valid()
      modifies this, items
      ensures Valid() && item == NodeAt(old(items), which)
      ensures item == null ==> items == old(items)
      ensures item != null ==> items == Without(old(items), which) && item.next == null && item.prev == null
    {
      var left;
      item, left := Walk(which);
      if item != null {
        assert which > 0 ==> item.prev == items[which - 1];
        DetachViaPointer(item, which);
      }
    }

    // cJSON_ReplaceItemViaPointer, with the same danger at the head.
    method ReplaceViaPointer(item: Item, replacement: Item, ghost k: nat)
      requires Loose() && k < |items| && items[k] == item
      requires replacement == item || replacement !in items
      modifies this, items, replacement, if item.prev == null then {} else {item.prev}
      ensures items == old(items)[k := replacement] && child == Head(items)
      ensures replacement != item ==> item.next == null && item.prev == null
      ensures Loose() <==> k > 0 || replacement == item || (old(HeadIsSafe()) && old(item.prev) != replacement)
      ensures old(Valid()) ==> Valid()
    {
      ghost var was, p := items, item.prev;
      if replacement == item {
        return;
      }
      assert k > 0 ==> items[k - 1].next == item && item.prev == items[k - 1];
      assert k + 1 < |items| ==> item.next == items[k + 1] && items[k + 1].prev == item;
      replacement.next := item.next;
      replacement.prev := item.prev;
      if replacement.next != null {
        replacement.next.prev := replacement;
      }
      if replacement.prev != null {
        replacement.prev.next := replacement;
      }
      if child == item {
        child := replacement;
      }
      item.next := null;
      item.prev := null;
      items := items[k := replacement];
      if k == 0 && p != null && p in was[1..] {
        var j :| 0 <= j < |was| - 1 && was[1..][j] == p;
        NoChainBackToHead(items, j + 1);
      } else if k == 0 && p == replacement {
        NoChainBackToHead(items, 0);
      } else {
        assert LinkedAround(was, k);
        Substituted(was, k, replacement);
      }
    }
  }
}
