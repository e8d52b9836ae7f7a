/**
 * The child list of a JSON array or object: doubly linked, with the last
 * element reachable over the first one's prev, where that is not null.
 */
module JsonList {

  class CJson {
    var next: CJson?
    var prev: CJson?
    var child: CJson?
    /** The children, in order. */
    ghost var items: seq<CJson>

    constructor ()
      ensures next == null && prev == null && child == null && items == [] && Valid()
    {
      next, prev, child := null, null, null;
      items := [];
    }

    ghost predicate Valid()
      reads this, items
    {
      && child == (if items == [] then null else items[0])
      && (forall i, j :: 0 <= i < j < |items| ==> items[i] != items[j])
      && (forall i {:trigger LinkOk(items, i)} :: 0 <= i < |items| ==> LinkOk(items, i))
      && (items != [] ==> items[0].prev == null || items[0].prev == items[|items| - 1])
    }

    /** get_array_item. */
    method GetItem(which: nat) returns (item: CJson?)
      requires Valid()
      ensures item == if which < |items| then items[which] else null
    {
      item := child;
      var index := which;
      while item != null && index > 0
        invariant 0 <= index <= which
        invariant item == if which - index < |items| then items[which - index] else null
        decreases index
      {
        assert which - index < |items| ==> LinkOk(items, which - index);
        index := index - 1;
        item := item.next;
      }
    }

    /** The loop of add_item_to_array that looks for the last child. */
    method Last() returns (last: CJson)
      requires Valid() && child != null
      ensures last == items[|items| - 1]
    {
      last := child;
      ghost var i := 0;
      assert LinkOk(items, 0);
      while last.next != null
        invariant i < |items| && last == items[i]
        invariant LinkOk(items, i)
        decreases |items| - i
      {
        last := last.next;
        i := i + 1;
        assert LinkOk(items, i);
      }
    }

    /** add_item_to_array, for an item that is in no list. */
    method Add(item: CJson?) returns (ok: bool)
      requires Valid() && (item != null && item != this ==> item !in items && item.next == null)
      modifies this`child, this`items, items`next, items`prev, {item}`next, {item}`prev
      ensures Valid() && (ok <==> item != null && item != this)
      ensures items == if ok then old(items) + [item] else old(items)
    {
      if item == null || item == this {
        return false;
      }
      if child == null {
        child := item;
        item.prev := item;
        item.next := null;
      } else {
        var last := child.prev;
        if last == null {
          last := Last();
        }
        Suffix(last, item);
        child.prev := item;
      }
      items := items + [item];
      ok := true;
      forall i | 0 <= i < |items| ensures LinkOk(items, i) {
        assert i < |old(items)| ==> old(LinkOk(items, i));
      }
    }

    /** The links of the child at index k are taken over by its neighbours. */
    method Unlink(item: CJson, ghost k: nat)
      requires Valid() && k < |items| && items[k] == item
      modifies this`child, items`next, items`prev
      ensures child == (if k > 0 then items[0] else if |items| > 1 then items[1] else null)
      ensures item.next == null && item.prev == null
      ensures forall i :: 0 <= i < |items| && i != k ==>
          items[i].next == if i + 1 == k then old(item.next) else old(items[i].next)
      ensures forall i :: 0 <= i < |items| && i != k ==>
          items[i].prev == if i == k + 1 || (i == 0 && k + 1 == |items|) then old(item.prev) else old(items[i].prev)
    {
      assert LinkOk(items, k);
      if item != child {
        item.prev.next := item.next;
      }
      if item.next != null {
        item.next.prev := item.prev;
      }
      if item == child {
        child := item.next;
      } else if item.next == null {
        child.prev := item.prev;
      }
      item.prev := null;
      item.next := null;
    }

    /** cJSON_DetachItemViaPointer, for a child of this object. */
    method Detach(item: CJson?) returns (result: CJson?)
      requires Valid() && (item != null ==> item in items)
      modifies this`child, this`items, items`next, items`prev
      ensures Valid() && result == item
      ensures item == null ==> items == old(items)
      ensures item != null ==> item.next == null && item.prev == null
      ensures item != null ==> exists k ::
          0 <= k < |old(items)| && old(items)[k] == item && items == old(items)[..k] + old(items)[k + 1..]
    {
      result := item;
      if item != null {
        ghost var k :| 0 <= k < |items| && items[k] == item;
        DetachChild(item, k);
      }
    }

    /** Takes the child at index k out of the list. */
    method DetachChild(item: CJson, ghost k: nat)
      requires Valid() && k < |items| && items[k] == item
      modifies this`child, this`items, items`next, items`prev
      ensures Valid() && items == old(items)[..k] + old(items)[k + 1..] && item.next == null && item.prev == null
    {
      assert LinkOk(items, k);
      Unlink(item, k);
      WithoutIsSlices(items, k);
      items := Without(items, k);
      forall i | 0 <= i < |items| ensures LinkOk(items, i) {
        assert old(LinkOk(items, if i < k then i else i + 1));
      }
    }

    /** cJSON_DetachItemFromArray. */
    method DetachAt(which: int) returns (result: CJson?)
      requires Valid()
      modifies this`child, this`items, items`next, items`prev
      ensures Valid()
      ensures result == if 0 <= which < |old(items)| then old(items)[which] else null
      ensures items == if 0 <= which < |old(items)| then old(items)[..which] + old(items)[which + 1..] else old(items)
    {
      if which < 0 {
        return null;
      }
      var item := GetItem(which);
      result := Detach(item);
    }

    /** The links of a new child before the one at index k. */
    method LinkBefore(item: CJson, after: CJson, ghost k: nat)
      requires Valid() && k < |items| && items[k] == after && item !in items
      modifies this`child, items`next, items`prev, item`next, item`prev
      ensures child == (if k > 0 then items[0] else item)
      ensures item.next == after && item.prev == old(after.prev)
      ensures forall i :: 0 <= i < |items| ==> items[i].next == if i + 1 == k then item else old(items[i].next)
      ensures forall i :: 0 <= i < |items| ==> items[i].prev == if i == k then item else old(items[i].prev)
    {
      assert LinkOk(items, k);
      item.next := after;
      item.prev := after.prev;
      after.prev := item;
      if after == child {
        child := item;
      } else {
        item.prev.next := item;
      }
    }

    /** cJSON_InsertItemInArray, for an item that is in no list. */
    method Insert(which: int, item: CJson?) returns (ok: bool)
      requires Valid() && (item != null && item != this ==> item !in items && item.next == null)
      requires 0 <= which < |items| ==> item != null && item !in items
      modifies this`child, this`items, items`next, items`prev, {item}`next, {item}`prev
      ensures Valid() && (ok <==> 0 <= which && (which < |old(items)| || (item != null && item != this)))
      ensures items == if !ok then old(items)
          else if which < |old(items)| then old(items)[..which] + [item] + old(items)[which..] else old(items) + [item]
    {
      if which < 0 {
        return false;
      }
      var after := GetItem(which);
      if after == null {
        ok := Add(item);
        return;
      }
      InsertBefore(item, after, which);
      ok := true;
    }

    /** A new child before the one at index k. */
    method InsertBefore(item: CJson, after: CJson, ghost k: nat)
      requires Valid() && k < |items| && items[k] == after && item !in items
      modifies this`child, this`items, items`next, items`prev, item`next, item`prev
      ensures Valid() && items == old(items)[..k] + [item] + old(items)[k..]
    {
      LinkBefore(item, after, k);
      WithIsSlices(items, k, item);
      items := With(items, k, item);
      assert old(LinkOk(items, k));
      forall i | 0 <= i < |items| ensures LinkOk(items, i) {
        assert i != k ==> old(LinkOk(items, if i < k then i else i - 1));
      }
    }

    /** The links of a child handed on to another item. */
    method LinkInstead(item: CJson, replacement: CJson, ghost k: nat)
      requires Valid() && k < |items| && items[k] == item && replacement !in items
      modifies this`child, items`next, items`prev, replacement`next, replacement`prev
      ensures child == (if k > 0 then items[0] else replacement)
      ensures item.next == null && item.prev == null && replacement.next == old(item.next)
      ensures replacement.prev == if |items| == 1 && old(item.prev) == item then replacement else old(item.prev)
      ensures forall i :: 0 <= i < |items| && i != k ==>
          items[i].next == if i + 1 == k then replacement else old(items[i].next)
      ensures forall i :: 0 <= i < |items| && i != k ==>
          items[i].prev == if i == k + 1 || (i == 0 && k + 1 == |items|) then replacement else old(items[i].prev)
    {
      assert LinkOk(items, k);
      replacement.next := item.next;
      replacement.prev := item.prev;
      if replacement.next != null {
        replacement.next.prev := replacement;
      }
      if child == item {
        if child.prev == child {
          replacement.prev := replacement;
        }
        child := replacement;
      } else {
        if replacement.prev != null {
          replacement.prev.next := replacement;
        }
        if replacement.next == null {
          child.prev := replacement;
        }
      }
      item.next := null;
      item.prev := null;
    }

    /** cJSON_ReplaceItemViaPointer, for a child of this object and an item that is in no list. */
    method Replace(item: CJson?, replacement: CJson?) returns (ok: bool)
      requires Valid() && (item != null ==> item in items)
      requires replacement != null && replacement != item ==> replacement !in items
      modifies this`child, this`items, items`next, items`prev, {replacement}`next, {replacement}`prev
      ensures Valid() && (ok <==> item != null && replacement != null)
      ensures !ok || item == replacement ==> items == old(items)
      ensures ok && item != replacement ==>
          && item.next == null && item.prev == null
          && exists k :: 0 <= k < |old(items)| && old(items)[k] == item && items == old(items)[k := replacement]
    {
      if replacement == null || item == null {
        return false;
      }
      ok := true;
      if replacement != item {
        ghost var k :| 0 <= k < |items| && items[k] == item;
        assert LinkOk(items, k);
        LinkInstead(item, replacement, k);
        items := items[k := replacement];
        forall i | 0 <= i < |items| ensures LinkOk(items, i) {
          assert old(LinkOk(items, i));
        }
      }
    }
  }

  /** cJSON_CreateIntArray, but for the numbers: children linked one by one, and a first one without prev. */
  method CreateArray(count: nat) returns (a: CJson)
    ensures fresh(a) && a.Valid() && |a.items| == count && fresh(a.items)
    ensures count > 0 ==> a.items[0].prev == null
  {
    a := new CJson();
    var p: CJson? := null;
    for i := 0 to count
      invariant fresh(a) && a.Valid() && |a.items| == i && fresh(a.items)
      invariant if i == 0 then p == null else p == a.items[i - 1] && a.items[0].prev == null
    {
      var n := new CJson();
      label Before:
      if i == 0 {
        a.child := n;
      } else {
        assert LinkOk(a.items, i - 1);
        Suffix(p, n);
      }
      a.items := a.items + [n];
      forall j | 0 <= j <= i ensures LinkOk(a.items, j) {
        assert j < i ==> old@Before(LinkOk(a.items, j));
      }
      p := n;
    }
  }

  /** s without the element at index k, and with x before it. */
  ghost function Without<T>(s: seq<T>, k: nat): (r: seq<T>)
    requires k < |s|
  {
    seq(|s| - 1, i requires 0 <= i < |s| - 1 => if i < k then s[i] else s[i + 1])
  }

  ghost function With<T>(s: seq<T>, k: nat, x: T): (r: seq<T>)
    requires k <= |s|
  {
    seq(|s| + 1, i requires 0 <= i < |s| + 1 => if i < k then s[i] else if i == k then x else s[i - 1])
  }

  lemma WithoutIsSlices<T>(s: seq<T>, k: nat)
    requires k < |s|
    ensures Without(s, k) == s[..k] + s[k + 1..]
  {
  }

  lemma WithIsSlices<T>(s: seq<T>, k: nat, x: T)
    requires k <= |s|
    ensures With(s, k, x) == s[..k] + [x] + s[k..]
  {
  }

  /** suffix_object. */
  method Suffix(prev: CJson, item: CJson)
    modifies prev`next, item`prev
    ensures prev.next == item && item.prev == prev
  {
    prev.next := item;
    item.prev := prev;
  }

  /** A child's links: to the one behind it, and, unless it is the first, to the one before. */
  ghost predicate LinkOk(s: seq<CJson>, i: nat)
    requires i < |s|
    reads s
  {
    && s[i].next == (if i + 1 < |s| then s[i + 1] else null)
    && (i > 0 ==> s[i].prev == s[i - 1])
  }
}
