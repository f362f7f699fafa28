/** The list of most recently used items: src/Gui/MruList.cs.

    Using an item moves it to the front, or puts it there, and drops what exceeds the size of the
    list. The method is proved against a function of the old list, and that function, over whole
    runs from an empty list, against the history read backwards: the first distinct items of it,
    as many as there is room for.
  */
module MruLists {

  datatype Item = Item(text: string)

  /** The first index of an item, or the length of the list. */
  ghost function IndexOf(items: seq<Item>, item: Item): (i: nat)
    ensures i <= |items|
    ensures forall j :: 0 <= j < i ==> items[j] != item
    ensures i < |items| ==> items[i] == item
  {
    if items == [] || items[0] == item then 0 else 1 + IndexOf(items[1..], item)
  }

  ghost function RemoveFirst(items: seq<Item>, item: Item): seq<Item> {
    var i := IndexOf(items, item);
    if i < |items| then items[..i] + items[i + 1..] else items
  }

  ghost function Take(items: seq<Item>, n: nat): seq<Item> {
    if |items| <= n then items else items[..n]
  }

  ghost function AfterUse(items: seq<Item>, item: Item, itemsMax: nat): seq<Item> {
    Take([item] + RemoveFirst(items, item), itemsMax)
  }

  class MruList {
    const itemsMax: nat
    var items: seq<Item>

    constructor (itemsMax: nat)
      ensures this.itemsMax == itemsMax && items == []
    {
      this.itemsMax, items := itemsMax, [];
    }

    /** Moves an item to the top, dropping the last one if there are too many. */
    method Use(item: Item)
      modifies this
      ensures items == AfterUse(old(items), item, itemsMax)
    {
      var i := 0;
      while i < |items| && items[i] != item
        invariant i <= |items|
        invariant forall j :: 0 <= j < i ==> items[j] != item
      {
        i := i + 1;
      }
      assert i == IndexOf(items, item);
      if i < |items| {
        items := items[..i] + items[i + 1..];
      }
      items := [item] + items;
      var itemsToKill := |items| - itemsMax;
      if itemsToKill > 0 {
        items := items[..itemsMax];
      }
    }
  }

  // ---------- whole runs ----------

  /** The list after the uses in `recent`, which is newest first. */
  ghost function Run(recent: seq<Item>, itemsMax: nat): seq<Item> {
    if recent == [] then [] else AfterUse(Run(recent[1..], itemsMax), recent[0], itemsMax)
  }

  /** The entries of the first n uses that are not repetitions of newer ones. */
  ghost function Distinct(recent: seq<Item>, n: nat): seq<Item>
    requires n <= |recent|
  {
    if n == 0 then []
    else
      Distinct(recent, n - 1) + (if recent[n - 1] in recent[..n - 1] then [] else [recent[n - 1]])
  }

  ghost function Without(items: seq<Item>, item: Item): seq<Item> {
    if items == [] then []
    else
      Without(items[..|items| - 1], item) + (if items[|items| - 1] == item then [] else [items[|items| - 1]])
  }

  ghost predicate NoRepeats(items: seq<Item>) {
    forall i, j :: 0 <= i < j < |items| ==> items[i] != items[j]
  }

  lemma {:induction false} DistinctElements(recent: seq<Item>, n: nat)
    requires n <= |recent|
    ensures forall x :: x in Distinct(recent, n) <==> x in recent[..n]
    ensures NoRepeats(Distinct(recent, n))
  {
    if n == 0 {
    } else {
      DistinctElements(recent, n - 1);
      assert recent[..n] == recent[..n - 1] + [recent[n - 1]];
    }
  }

  /** A newer use comes first, and hides the older uses of its item. */
  lemma {:induction false} DistinctOfNewer(item: Item, recent: seq<Item>, n: nat)
    requires n <= |recent|
    ensures Distinct([item] + recent, n + 1) == [item] + Without(Distinct(recent, n), item)
  {
    var all := [item] + recent;
    if n == 0 {
      assert all[..0] == [];
      assert Distinct(all, 0) == [];
      assert Distinct(all, 1) == [item];
    } else {
      DistinctOfNewer(item, recent, n - 1);
      assert all[..n] == [item] + recent[..n - 1];
      assert all[n] == recent[n - 1];
      var x := recent[n - 1];
      assert x in all[..n] <==> x == item || x in recent[..n - 1];
      var distinct := Distinct(recent, n - 1);
      if x in recent[..n - 1] {
        assert Distinct(recent, n) == distinct;
      } else {
        var next := if x == item then [] else [x];
        assert [item] + (Without(distinct, item) + next) == [item] + Without(distinct, item) + next;
        assert Distinct(recent, n) == distinct + [x];
      }
    }
  }

  lemma {:induction false} WithoutAbsent(items: seq<Item>, item: Item)
    requires item !in items
    ensures Without(items, item) == items
  {
    if items == [] {
    } else {
      WithoutAbsent(items[..|items| - 1], item);
    }
  }

  lemma RemoveBeforeLast(front: seq<Item>, last: Item, item: Item)
    requires last != item
    ensures RemoveFirst(front + [last], item) == RemoveFirst(front, item) + [last]
  {
    var i := IndexOf(front, item);
    IndexIs(front + [last], item, if i < |front| then i else |front| + 1);
  }

  lemma IndexIs(items: seq<Item>, item: Item, i: nat)
    requires i <= |items| && forall j :: 0 <= j < i ==> items[j] != item
    requires i < |items| ==> items[i] == item
    ensures IndexOf(items, item) == i
  {
  }

  lemma {:induction false} WithoutIs(items: seq<Item>, item: Item)
    requires NoRepeats(items)
    ensures Without(items, item) == RemoveFirst(items, item)
  {
    var i := IndexOf(items, item);
    if i == |items| {
      WithoutAbsent(items, item);
    } else {
      var front, last := items[..|items| - 1], items[|items| - 1];
      assert items == front + [last];
      if last == item {
        assert RemoveFirst(items, item) == front;
        WithoutAbsent(front, item);
      } else {
        WithoutIs(front, item);
        RemoveBeforeLast(front, last, item);
      }
    }
  }

  /** Cutting a list short before an item is used makes no difference afterwards. */
  lemma UseOfTaken(items: seq<Item>, item: Item, n: nat)
    requires NoRepeats(items)
    ensures AfterUse(Take(items, n), item, n) == AfterUse(items, item, n)
  {
    if |items| > n {
      var i, taken := IndexOf(items, item), items[..n];
      IndexIs(taken, item, if i < n then i else n);
      var rest := RemoveFirst(items, item);
      if n == 0 {
      } else if i < n {
        assert RemoveFirst(taken, item) == rest[..n - 1];
      } else {
        assert taken[..n - 1] == rest[..n - 1];
        assert ([item] + taken)[..n] == [item] + taken[..n - 1];
      }
      assert n > 0 ==> ([item] + rest)[..n] == [item] + rest[..n - 1];
    }
  }

  /** After any run of uses of an empty list, the items are the first `itemsMax` distinct
      entries of the history, read from the most recent one. */
  lemma {:induction false} ItemsAreMostRecent(recent: seq<Item>, itemsMax: nat)
    ensures Run(recent, itemsMax) == Take(Distinct(recent, |recent|), itemsMax)
  {
    if recent == [] {
    } else {
      var item, older := recent[0], recent[1..];
      ItemsAreMostRecent(older, itemsMax);
      var distinct := Distinct(older, |older|);
      DistinctElements(older, |older|);
      UseOfTaken(distinct, item, itemsMax);
      WithoutIs(distinct, item);
      DistinctOfNewer(item, older, |older|);
      assert recent == [item] + older;
    }
  }
}
