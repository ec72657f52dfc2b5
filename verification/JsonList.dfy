/**
 The child list of firmware/src/cJSON.c on the heap: items chained by `next` and `prev`, the head's
 `prev` keeping the last item where a list has been appended to, and nothing where it has not.
 */
module JsonList {
  import opened Bytes

  datatype Kind = NullKind | FalseKind | TrueKind | NumberKind | StringKind | ArrayKind | ObjectKind

  /** What an item holds itself: type, number (as a double and as an `int`), string, and its key if it is a member. */
  datatype Own = Own(kind: Kind, number: real, integer: int, text: seq<byte>, key: seq<byte>)

  class Item {
    var content: Own
    var next: Item?
    var prev: Item?
    var child: Item?

    constructor (content: Own)
      ensures this.content == content && next == null && prev == null && child == null
    {
      this.content, next, prev, child := content, null, null, null;
    }
  }

  // ----- The invariant -----

  predicate Distinct(items: seq<Item>) {
    forall i, j | 0 <= i < j < |items| :: items[i] != items[j]
  }

  ghost function AsSet(items: seq<Item>): set<Item> {
    set x | x in items
  }

  /** The item behind position i. */
  function NextOf(items: seq<Item>, i: nat): Item? {
    if i + 1 < |items| then items[i + 1] else null
  }

  ghost predicate Linked(items: seq<Item>, i: nat)
    requires i < |items|
    reads AsSet(items)`next, AsSet(items)`prev
  {
    items[i].next == NextOf(items, i) && (i > 0 ==> items[i].prev == items[i - 1])
  }

  /** The items, one behind the other from `head`; the head may know the last. */
  ghost predicate Chain(head: Item?, items: seq<Item>)
    reads AsSet(items)`next, AsSet(items)`prev
  {
    && Distinct(items)
    && (forall i | 0 <= i < |items| :: Linked(items, i))
    && (if items == [] then head == null
        else head == items[0] && (head.prev == null || head.prev == items[|items| - 1]))
  }

  /** The array's children are these items, and the array is none of them. */
  ghost predicate Holds(parent: Item, items: seq<Item>)
    reads parent`child, AsSet(items)`next, AsSet(items)`prev
  {
    parent !in items && Chain(parent.child, items)
  }

  // ----- Reading -----

  method GetArraySize(parent: Item?, ghost items: seq<Item>) returns (size: nat)
    requires parent != null ==> Holds(parent, items)
    ensures size == if parent == null then 0 else |items|
  {
    size := 0;
    if parent == null {
      return;
    }
    var child := parent.child;
    while child != null
      invariant size <= |items| && child == (if size < |items| then items[size] else null)
      decreases |items| - size
    {
      assert Linked(items, size);
      size := size + 1;
      child := child.next;
    }
  }

  method GetArrayItem(parent: Item?, index: nat, ghost items: seq<Item>) returns (item: Item?)
    requires parent != null ==> Holds(parent, items)
    ensures item == if parent != null && index < |items| then items[index] else null
  {
    if parent == null {
      return null;
    }
    var left: nat, k: nat := index, 0;
    item := parent.child;
    while item != null && left > 0
      invariant k + left == index && k <= |items| && item == (if k < |items| then items[k] else null)
      decreases left
    {
      assert Linked(items, k);
      left := left - 1;
      k := k + 1;
      item := item.next;
    }
  }

  // ----- Appending and inserting -----

  /** An item that may go into the list: not in it yet, and not the array. */
  ghost predicate Outside(item: Item, parent: Item, items: seq<Item>) {
    item != parent && item !in items
  }

  ghost function Optional(item: Item?): set<Item> {
    if item == null then {} else {item}
  }

  method SuffixObject(prev: Item, item: Item)
    requires prev != item
    modifies prev`next, item`prev
    ensures prev.next == item && item.prev == prev
  {
    prev.next := item;
    item.prev := prev;
  }

  /** Links an item behind the last one and lets the head know it. */
  method Attach(parent: Item, last: Item, item: Item, ghost items: seq<Item>)
    requires Holds(parent, items) && Outside(item, parent, items) && item.next == null
    requires items != [] && last == items[|items| - 1]
    modifies item`prev, AsSet(items)`next, AsSet(items)`prev
    ensures Holds(parent, items + [item]) && parent.child.prev == item
  {
    ghost var all := items + [item];
    ghost var n := |items|;
    assert forall i | 0 <= i < n :: Linked(items, i);
    SuffixObject(last, item);
    parent.child.prev := item;
    forall i | 0 <= i < |all|
      ensures Linked(all, i)
    {
      if i < n {
        assert old(Linked(items, i));
      }
    }
    assert Distinct(all);
  }

  /** Appends, through the cached last item if there is one and by walking otherwise: the same list either way. */
  method AddItemToArray(parent: Item?, item: Item?, ghost items: seq<Item>) returns (ok: bool)
    requires parent != null ==> Holds(parent, items)
    requires parent != null && item != null ==> Outside(item, parent, items) && item.next == null
    modifies Optional(parent)`child, Optional(item)`next, Optional(item)`prev
    modifies AsSet(items)`next, AsSet(items)`prev
    ensures ok <==> parent != null && item != null
    ensures ok ==> Holds(parent, items + [item]) && parent.child.prev == item
    ensures !ok ==> unchanged(items) && (parent != null ==> unchanged(parent)) && (item != null ==> unchanged(item))
  {
    if item == null || parent == null {
      return false;
    }
    ok := true;
    var child := parent.child;
    if child == null {
      parent.child := item;
      item.prev := item;
      item.next := null;
      assert items + [item] == [item];
      assert Linked([item], 0);
    } else if child.prev != null {
      Attach(parent, child.prev, item, items);
    } else {
      ghost var k := 0;
      while child.next != null
        invariant k < |items| && child == items[k]
        decreases |items| - k
      {
        assert Linked(items, k);
        child := child.next;
        k := k + 1;
      }
      assert Linked(items, k);
      Attach(parent, child, item, items);
    }
  }

  /** The sequence after an insertion: at the place asked for, or at the end if there is none. */
  ghost function Inserted<T>(items: seq<T>, which: nat, item: T): seq<T> {
    if which < |items| then items[..which] + [item] + items[which..] else items + [item]
  }

  /** An item put in front becomes the head and inherits what the old head knew of the last. */
  method InsertFirst(parent: Item, newitem: Item, ghost items: seq<Item>)
    requires Holds(parent, items) && Outside(newitem, parent, items) && items != []
    modifies parent`child, newitem`next, newitem`prev, AsSet(items)`next, AsSet(items)`prev
    ensures Holds(parent, [newitem] + items)
  {
    ghost var all := [newitem] + items;
    var head := parent.child;
    newitem.next := head;
    newitem.prev := head.prev;
    head.prev := newitem;
    parent.child := newitem;
    forall i | 0 <= i < |all|
      ensures Linked(all, i)
    {
      if i > 0 {
        assert old(Linked(items, i - 1));
      }
    }
    assert Distinct(all);
  }

  /** An item put between two others. */
  method InsertInside(parent: Item, which: nat, newitem: Item, ghost items: seq<Item>, after: Item)
    requires Holds(parent, items) && Outside(newitem, parent, items)
    requires 0 < which < |items| && after == items[which]
    modifies newitem`next, newitem`prev, AsSet(items)`next, AsSet(items)`prev
    ensures Holds(parent, items[..which] + [newitem] + items[which..])
  {
    ghost var all := items[..which] + [newitem] + items[which..];
    assert Linked(items, which);
    newitem.next := after;
    newitem.prev := after.prev;
    after.prev := newitem;
    newitem.prev.next := newitem;
    forall i | 0 <= i < |all|
      ensures Linked(all, i)
    {
      if i < which {
        assert old(Linked(items, i));
      } else if i > which {
        assert old(Linked(items, i - 1));
      }
    }
    DistinctInserted(items, which, newitem);
    assert items[|items| - 1] == all[|items|];
  }

  lemma DistinctInserted(items: seq<Item>, which: nat, item: Item)
    requires which <= |items| && Distinct(items) && item !in items
    ensures Distinct(items[..which] + [item] + items[which..])
  {
  }

  lemma HeadIsFirst(parent: Item, items: seq<Item>, which: nat)
    requires Holds(parent, items) && which < |items|
    ensures items[which] == parent.child <==> which == 0
  {
  }

  /** Inserts before the item at that place, or appends. */
  method InsertItemInArray(parent: Item, which: int, newitem: Item, ghost items: seq<Item>)
    requires Holds(parent, items) && Outside(newitem, parent, items) && newitem.next == null
    modifies parent`child, newitem`next, newitem`prev, AsSet(items)`next, AsSet(items)`prev
    ensures which < 0 ==> unchanged(parent, newitem, items)
    ensures which >= 0 ==> Holds(parent, Inserted(items, which, newitem))
  {
    hide Chain;
    if which < 0 {
      return;
    }
    var afterInserted := GetArrayItem(parent, which, items);
    if afterInserted == null {
      var ok := AddItemToArray(parent, newitem, items);
      assert forall i | 0 <= i < |items| :: items[i] == (items + [newitem])[i];
      assert newitem == (items + [newitem])[|items|];
      return;
    }
    HeadIsFirst(parent, items, which);
    if afterInserted == parent.child {
      assert Inserted(items, which, newitem) == [newitem] + items;
      InsertFirst(parent, newitem, items);
    } else {
      InsertInside(parent, which, newitem, items, afterInserted);
    }
  }
}
