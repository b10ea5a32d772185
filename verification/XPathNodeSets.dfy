/**
 Node-set operations of the evaluator: order detection, sorting, the first node,
 and duplicate removal.
 */
module XPathNodeSets {
  import opened Common
  import opened XPathLibrary
  import opened XPathModel
  import opened XPathLists
  import opened XmlTree
  import Sorting
  import HashSet
  import Traversal
  import DocumentOrder

  lemma BeforeIsTotal()
    ensures Sorting.StrictTotalOrder(Before)
  {
  }

  /** Where the places of nodes in the buffer are known, they follow document order. */
  ghost predicate KeysFollow(t: Tree, key: Item -> Option<nat>) {
    forall x, y :: InDoc(t, x) && InDoc(t, y) && Before(x, y) && key(x).Some? && key(y).Some? ==>
      key(x).value < key(y).value
  }

  /** document_order_comparator on two different nodes, with its shortcut through the places of nodes in the buffer. */
  method ItemIsBefore(t: Tree, h: Traversal.Heap, key: Item -> Option<nat>, x: Item, y: Item) returns (r: bool)
    requires Traversal.Linked(t, h) && KeysFollow(t, key) && InDoc(t, x) && InDoc(t, y) && x != y
    ensures r == Before(x, y)
  {
    var lo, ro := key(x), key(y);
    if lo.Some? && ro.Some? {
      assert Before(x, y) || Before(y, x);
      return lo.value < ro.value;
    }
    var ln, rn := x.node, y.node;
    if x.attr != -1 && y.attr != -1 {
      if ln == rn {
        // walk the attributes after x
        var a := x.attr;
        while a < |t.data[ln].attributes| && a != y.attr
          invariant x.attr <= a <= |t.data[ln].attributes| && (x.attr <= y.attr ==> a <= y.attr)
        {
          a := a + 1;
        }
        return a < |t.data[ln].attributes|;
      }
    } else if x.attr != -1 {
      if ln == rn {
        return false;
      }
    } else if y.attr != -1 {
      if ln == rn {
        return true;
      }
    }
    if ln == rn {
      return false;
    }
    r := DocumentOrder.NodeIsBefore(t, h, ln, rn);
  }

  /** xpath_get_order. */
  method GetOrder(list: seq<Item>) returns (order: Order)
    requires Distinct(list)
    ensures InOrder(order, list)
  {
    if |list| < 2 {
      return SortedUp;
    }
    var first := Before(list[0], list[1]);
    var k := 1;
    while k + 1 < |list|
      invariant 1 <= k < |list|
      invariant if first then Ascending(list[..k + 1]) else Descending(list[..k + 1])
    {
      if Before(list[k], list[k + 1]) != first {
        return Unsorted;
      }
      assert list[..k + 2] == list[..k + 1] + [list[k + 1]];
      assert Before(list[k], list[k + 1]) || Before(list[k + 1], list[k]);
      k := k + 1;
    }
    assert list[..k + 1] == list;
    order := if first then SortedUp else SortedDown;
  }

  method Reversed(list: seq<Item>) returns (r: seq<Item>)
    ensures |r| == |list| && forall i :: 0 <= i < |r| ==> r[i] == list[|list| - 1 - i]
  {
    var a := new Item[|list|](i requires 0 <= i < |list| => list[i]);
    var begin, end := 0, a.Length;
    while end - begin > 1
      invariant 0 <= begin && end == a.Length - begin && begin <= end + 1
      invariant forall i {:trigger a[i]} :: begin <= i < end ==> a[i] == list[i]
      invariant forall i {:trigger a[i]} :: 0 <= i < begin || end <= i < a.Length ==> a[i] == list[|list| - 1 - i]
    {
      end := end - 1;
      Sorting.Swap(a, begin, end);
      begin := begin + 1;
    }
    r := a[..];
  }

  lemma ReversedOrder(list: seq<Item>, r: seq<Item>)
    requires |r| == |list| && forall i :: 0 <= i < |r| ==> r[i] == list[|list| - 1 - i]
    ensures Descending(list) ==> Ascending(r)
    ensures Ascending(list) ==> Descending(r)
    ensures forall x :: x in r <==> x in list
    ensures Distinct(list) ==> Distinct(r)
  {
    forall x | x in list
      ensures x in r
    {
      var k :| 0 <= k < |list| && list[k] == x;
      assert r[|list| - 1 - k] == x;
    }
  }

  /** xpath_sort: into document order, or against it. */
  method XPathSort(ns: RawSet, rev: bool) returns (r: RawSet)
    requires InOrder(ns.order, ns.items) && Distinct(ns.items)
    ensures r.order == (if rev then SortedDown else SortedUp) && forall x :: x in r.items <==> x in ns.items
    ensures if rev then Descending(r.items) else Ascending(r.items)
  {
    var goal := if rev then SortedDown else SortedUp;
    var order, list := ns.order, ns.items;
    if order == Unsorted {
      order := GetOrder(list);
      if order == Unsorted {
        list := SortItems(list);
        order := SortedUp;
      }
    }
    if order != goal {
      var back := Reversed(list);
      ReversedOrder(list, back);
      list := back;
    }
    r := RawSet(goal, list);
  }

  /** sort_do. */
  method SortDo(ns: RawSet) returns (r: RawSet)
    requires InOrder(ns.order, ns.items) && Distinct(ns.items)
    ensures r.order == SortedUp && Ascending(r.items) && forall x :: x in r.items <==> x in ns.items
  {
    r := XPathSort(ns, false);
  }

  method SortItems(list: seq<Item>) returns (r: seq<Item>)
    requires Distinct(list)
    ensures Ascending(r) && forall x :: x in r <==> x in list
  {
    var a := new Item[|list|](i requires 0 <= i < |list| => list[i]);
    assert a[..] == list;
    BeforeIsTotal();
    var _ := Sorting.Sort(a, 0, a.Length, Before);
    r := a[..];
    SortedItems(list, r);
  }

  lemma SortedItems(list: seq<Item>, r: seq<Item>)
    requires Distinct(list) && multiset(r) == multiset(list)
    requires forall i, j :: 0 <= i < j < |r| ==> !Before(r[j], r[i])
    ensures Ascending(r) && forall x :: x in r <==> x in list
  {
    forall x
      ensures x in r <==> x in list
    {
      assert x in r <==> x in multiset(r);
      assert x in list <==> x in multiset(list);
    }
    forall i, j | 0 <= i < j < |r|
      ensures Before(r[i], r[j])
    {
      if r[i] == r[j] {
        TwiceInMultiset(r, i, j);
        OnceInMultiset(list, r[i]);
      }
    }
  }

  lemma TwiceInMultiset<T>(s: seq<T>, i: nat, j: nat)
    requires i < j < |s| && s[i] == s[j]
    ensures multiset(s)[s[i]] >= 2
  {
    assert s == s[..i] + [s[i]] + s[i + 1..j] + [s[j]] + s[j + 1..];
  }

  lemma {:induction false} OnceInMultiset(list: seq<Item>, x: Item)
    requires Distinct(list)
    ensures multiset(list)[x] <= 1
  {
    if list != [] {
      var front, y := list[..|list| - 1], list[|list| - 1];
      assert list == front + [y];
      OnceInMultiset(front, x);
      if x == y {
        assert x !in front;
        assert multiset(front)[x] == 0;
      }
    }
  }

  /** xpath_first, on a set that is not empty. */
  method XPathFirst(ns: RawSet) returns (x: Item)
    requires InOrder(ns.order, ns.items) && ns.items != []
    ensures IsFirst(x, Elements(ns.items))
  {
    match ns.order {
      case SortedUp => x := ns.items[0];
      case SortedDown => x := ns.items[|ns.items| - 1];
      case Unsorted =>
        // min_element
        x := ns.items[0];
        var k := 1;
        while k < |ns.items|
          invariant 1 <= k <= |ns.items| && x in ns.items
          invariant forall j :: 0 <= j < k ==> x == ns.items[j] || Before(x, ns.items[j])
        {
          if Before(ns.items[k], x) {
            x := ns.items[k];
          }
          k := k + 1;
        }
    }
  }

  lemma DedupNoRepeats(list: seq<Item>)
    ensures Distinct(HashSet.Dedup(list)) && forall x :: x in HashSet.Dedup(list) <==> x in list
  {
    HashSet.DedupElements(list);
  }

  method RemoveDuplicates(list: seq<Item>, addr: Item -> nat, hash: nat -> nat) returns (r: seq<Item>)
    requires HashSet.Addresses(addr, list)
    ensures Distinct(r) && forall x :: x in r <==> x in list
  {
    var a := new Item[|list|](i requires 0 <= i < |list| => list[i]);
    assert a[..a.Length] == list;
    var end := HashSet.RemoveDuplicates(a, a.Length, addr, hash);
    r := a[..end];
    DedupNoRepeats(list);
  }
}
