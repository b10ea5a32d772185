/**
 Lists of nodes as the XPath evaluator builds them, and what they say about the
 set of nodes they stand for.
 */
module XPathLists {
  import opened Common
  import opened XmlTree
  import opened XPathLibrary
  import opened XPathModel

  datatype Order = Unsorted | SortedUp | SortedDown

  /** xpath_node_set_raw: nodes, and what is known about their order. */
  datatype RawSet = RawSet(order: Order, items: seq<Item>)

  /** How much of a node set the caller needs: all of it, whether it is empty, or its first node. */
  datatype Mode = EvalAll | EvalAny | EvalFirst

  ghost predicate InOrder(order: Order, list: seq<Item>) {
    && (order == SortedUp ==> Ascending(list))
    && (order == SortedDown ==> Descending(list))
  }

  /** The list tells as much about s as the mode asks for. */
  ghost predicate Covers(list: seq<Item>, mode: Mode, s: set<Item>) {
    && (forall x :: x in list ==> x in s)
    && (list == [] ==> s == {})
    && (mode == EvalAll ==> forall x :: x in s ==> x in list)
    && (mode == EvalFirst && s != {} ==> First(s) in list)
  }

  ghost predicate Answers(ns: RawSet, mode: Mode, s: set<Item>) {
    InOrder(ns.order, ns.items) && Distinct(ns.items) && Covers(ns.items, mode, s)
  }

  lemma FirstUnique(x: Item, y: Item, s: set<Item>)
    requires IsFirst(x, s) && IsFirst(y, s)
    ensures x == y
  {
  }

  lemma CoversUnion(a: seq<Item>, b: seq<Item>, mode: Mode, s: set<Item>, u: set<Item>)
    requires Covers(a, mode, s) && Covers(b, mode, u)
    ensures Covers(a + b, mode, s + u)
  {
    if mode == EvalFirst && s + u != {} {
      var x := First(s + u);
      if x in s {
        FirstUnique(x, First(s), s);
      } else {
        FirstUnique(x, First(u), u);
      }
    }
  }

  /** eval_once: whether the first node already answers the caller. */
  predicate EvalOnce(order: Order, mode: Mode) {
    if order == SortedUp then mode != EvalAll else mode == EvalAny
  }

  /** What one context node contributes: all its nodes, or the first one when that is enough. */
  lemma TakenCovers(list: seq<Item>, once: bool, mode: Mode)
    requires once ==> mode == EvalAny || (mode == EvalFirst && Ascending(list)) || |list| <= 1
    ensures Covers(Taken(list, once), mode, Elements(list))
  {
    if once && |list| > 1 && mode == EvalFirst {
      assert IsFirst(list[0], Elements(list));
      FirstUnique(list[0], First(Elements(list)), Elements(list));
    }
    assert forall x :: x in list ==> x in Elements(list);
    if list != [] {
      assert list[0] in Elements(list);
    }
  }

  lemma {:induction false} KeptAmong(w: World, p: Expr, list: seq<Item>, k: nat)
    requires w.t.Valid() && k <= |list|
    ensures forall x :: x in Kept(w, p, list, k) ==> x in list[..k]
  {
    hide Holds;
    if k != 0 {
      KeptAmong(w, p, list, k - 1);
      assert list[..k] == list[..k - 1] + [list[k - 1]];
    }
  }

  /** An element behind those that come from the first ones of a list. */
  lemma Behind(r: seq<Item>, list: seq<Item>, k: nat)
    requires k < |list| && forall x :: x in r ==> x in list[..k]
    ensures Ascending(list) && Ascending(r) ==> Ascending(r + [list[k]])
    ensures Descending(list) && Descending(r) ==> Descending(r + [list[k]])
    ensures Distinct(list) && Distinct(r) ==> Distinct(r + [list[k]])
  {
    forall i | 0 <= i < |r|
      ensures exists j :: 0 <= j < k && r[i] == list[j]
    {
      assert r[i] in list[..k];
    }
  }

  /** Keeping some of the nodes of a list keeps their order. */
  lemma {:induction false} KeptOrder(w: World, p: Expr, list: seq<Item>, k: nat)
    requires w.t.Valid() && k <= |list|
    ensures forall x :: x in Kept(w, p, list, k) ==> x in list[..k]
    ensures Ascending(list) ==> Ascending(Kept(w, p, list, k))
    ensures Descending(list) ==> Descending(Kept(w, p, list, k))
    ensures Distinct(list) ==> Distinct(Kept(w, p, list, k))
  {
    hide Holds;
    KeptAmong(w, p, list, k);
    if k != 0 {
      KeptOrder(w, p, list, k - 1);
      Behind(Kept(w, p, list, k - 1), list, k - 1);
      hide Ascending, Descending, Distinct;
      var r, x := Kept(w, p, list, k - 1), list[k - 1];
      assert Kept(w, p, list, k) == r + [x] || Kept(w, p, list, k) == r;
    }
  }

  lemma {:induction false} SurvivingOrder(w: World, ps: Predicates, list: seq<Item>)
    requires w.t.Valid()
    ensures forall x :: x in Surviving(w, ps, list) ==> x in list
    ensures Ascending(list) ==> Ascending(Surviving(w, ps, list))
    ensures Descending(list) ==> Descending(Surviving(w, ps, list))
    ensures Distinct(list) ==> Distinct(Surviving(w, ps, list))
    decreases ps
  {
    if ps.MorePredicates? {
      KeptOrder(w, ps.first, list, |list|);
      SurvivingOrder(w, ps.rest, Kept(w, ps.first, list, |list|));
    }
  }

  lemma AscendingNoRepeats(list: seq<Item>)
    requires Ascending(list) || Descending(list)
    ensures Distinct(list)
  {
    forall i, j | 0 <= i < j < |list|
      ensures list[i] != list[j]
    {
      assert Before(list[i], list[j]) || Before(list[j], list[i]);
    }
  }

  lemma {:induction false} AttributeListExact(t: Tree, i: nat, test: NodeTest, k: nat)
    requires i < t.Count() && k <= |t.data[i].attributes|
    ensures forall y :: y in AttributeList(t, i, test, k) <==>
      y.node == i && k <= y.attr < |t.data[i].attributes| && AcceptsAttribute(test, t.data[i].attributes[y.attr])
    ensures Ascending(AttributeList(t, i, test, k))
    decreases |t.data[i].attributes| - k
  {
    if k < |t.data[i].attributes| {
      AttributeListExact(t, i, test, k + 1);
    }
  }

  lemma NodesExact(idx: seq<nat>, s: set<nat>)
    requires forall j :: j in idx <==> j in s
    ensures forall y :: y in Nodes(idx) <==> y.attr == -1 && y.node in s
    ensures (forall a, b :: 0 <= a < b < |idx| ==> idx[a] < idx[b]) ==> Ascending(Nodes(idx))
    ensures (forall a, b :: 0 <= a < b < |idx| ==> idx[a] > idx[b]) ==> Descending(Nodes(idx))
  {
    forall y: Item | y.attr == -1 && y.node in s
      ensures y in Nodes(idx)
    {
      var k :| 0 <= k < |idx| && idx[k] == y.node;
      assert Nodes(idx)[k] == y;
    }
  }

  lemma NodesOfListing(t: Tree, axis: Axis, test: NodeTest, i: nat)
    requires t.Valid() && i < t.Count()
    ensures forall y: Item :: y in Nodes(Listing(t, axis, test, i)) <==>
      y.attr == -1 && y.node in Selected(t, axis, test, i)
    ensures
      var list := Nodes(Listing(t, axis, test, i));
      if IsReverse(axis) then Descending(list) else Ascending(list)
  {
    ListingExact(t, axis, test, i);
    NodesExact(Listing(t, axis, test, i), Selected(t, axis, test, i));
  }

  lemma StepListOfNode(t: Tree, axis: Axis, test: NodeTest, x: Item)
    requires t.Valid() && InDoc(t, x) && x.attr == -1
    ensures forall y :: y in StepList(t, axis, test, x) <==> Selects(t, axis, test, x, y)
    ensures if IsReverse(axis) then Descending(StepList(t, axis, test, x)) else Ascending(StepList(t, axis, test, x))
  {
    hide Tree.Nested, Listing, Up, Down;
    AttributeListExact(t, x.node, test, 0);
    NodesOfListing(t, axis, test, x.node);
  }

  /** The nodes that follow an attribute: the rest of the document after its element's start. */
  lemma FollowingNodes(t: Tree, test: NodeTest, p: nat, s: set<nat>)
    requires t.Valid() && p < t.Count() && s == Selected(t, Descendant, test, p) + Selected(t, Following, test, p)
    ensures
      forall y: Item :: y in Nodes(Up(s, t.Count())) <==>
        y.attr == -1 && p < y.node < t.Count() && Accepts(test, t.data[y.node])
    ensures Ascending(Nodes(Up(s, t.Count())))
  {
    FollowingSet(t, test, p, s);
    hide Tree.Nested, Up, Accepts, Selected, OnAxis;
    UpLists(s, t.Count());
    NodesExact(Up(s, t.Count()), s);
  }

  lemma FollowingOfAttribute(t: Tree, test: NodeTest, x: Item)
    requires t.Valid() && InDoc(t, x) && x.attr != -1
    ensures forall y :: y in StepList(t, Following, test, x) <==> Selects(t, Following, test, x, y)
    ensures Ascending(StepList(t, Following, test, x))
  {
    var s := Selected(t, Descendant, test, x.node) + Selected(t, Following, test, x.node);
    FollowingNodes(t, test, x.node, s);
    hide Tree.Nested, Up, Accepts, AcceptsAttribute, Selected, OnAxis, Nodes, Ascending;
    assert StepList(t, Following, test, x) == Nodes(Up(s, t.Count()));
  }

  lemma FollowingSet(t: Tree, test: NodeTest, p: nat, s: set<nat>)
    requires t.Valid() && p < t.Count() && s == Selected(t, Descendant, test, p) + Selected(t, Following, test, p)
    ensures forall j: nat :: j in s <==> p < j < t.Count() && Accepts(test, t.data[j])
  {
    hide Tree.Nested, Accepts;
  }

  /** An attribute shares these axes with its element. */
  predicate SharedAxis(axis: Axis, from: Axis) {
    || (axis == Preceding && from == Preceding)
    || (axis == Parent && from == Self)
    || (axis == Ancestor && from == AncestorOrSelf)
  }

  lemma SharedOfAttribute(t: Tree, axis: Axis, from: Axis, test: NodeTest, x: Item)
    requires t.Valid() && InDoc(t, x) && x.attr != -1 && SharedAxis(axis, from)
    ensures forall y :: y in StepList(t, axis, test, x) <==> Selects(t, axis, test, x, y)
    ensures if IsReverse(axis) then Descending(StepList(t, axis, test, x)) else Ascending(StepList(t, axis, test, x))
  {
    NodesOfListing(t, from, test, x.node);
    SelectedNode(t, from, test, x.node);
    AttributeSelects(t, axis, test, x);
    hide Tree.Nested, Listing, Up, Down, Accepts, AcceptsAttribute, Nodes, Selected, OnAxis, Ascending, Descending,
      Selects;
    assert StepList(t, axis, test, x) == Nodes(Listing(t, from, test, x.node));
  }

  lemma SelectedNode(t: Tree, axis: Axis, test: NodeTest, i: nat)
    requires t.Valid() && i < t.Count()
    ensures forall j: nat :: j in Selected(t, axis, test, i) <==>
      j < t.Count() && OnAxis(t, axis, i, j) && Accepts(test, t.data[j])
  {
    hide Tree.Nested, Accepts, OnAxis;
  }

  lemma AttributeSelects(t: Tree, axis: Axis, test: NodeTest, x: Item)
    requires t.Valid() && InDoc(t, x) && x.attr != -1 && axis != Self && axis != DescendantOrSelf
    requires axis != AncestorOrSelf
    ensures forall y :: Selects(t, axis, test, x, y) <==>
      y.attr == -1 && y.node < t.Count() && OnAttributeAxis(t, axis, x.node, y.node) && Accepts(test, t.data[y.node])
  {
    hide Tree.Nested, Accepts, OnAttributeAxis, AcceptsAttribute;
  }

  lemma OwnOfAttribute(t: Tree, axis: Axis, test: NodeTest, x: Item)
    requires t.Valid() && InDoc(t, x) && x.attr != -1
    requires axis == Self || axis == DescendantOrSelf
    ensures forall y :: y in StepList(t, axis, test, x) <==> Selects(t, axis, test, x, y)
    ensures Ascending(StepList(t, axis, test, x))
  {
    hide Tree.Nested, Listing, Up, Down, Accepts, AcceptsAttribute, Nodes, Selected, OnAxis;
  }

  lemma AncestorsOfAttribute(t: Tree, test: NodeTest, x: Item)
    requires t.Valid() && InDoc(t, x) && x.attr != -1
    ensures forall y :: y in StepList(t, AncestorOrSelf, test, x) <==> Selects(t, AncestorOrSelf, test, x, y)
    ensures Descending(StepList(t, AncestorOrSelf, test, x))
  {
    var own := if test == TestNode && AcceptsAttribute(test, t.data[x.node].attributes[x.attr]) then [x] else [];
    var rest := Nodes(Listing(t, AncestorOrSelf, test, x.node));
    assert StepList(t, AncestorOrSelf, test, x) == own + rest by {
      hide Listing, AcceptsAttribute, Nodes;
    }
    AncestorsAre(t, test, x, rest);
    hide StepList, Selects, Listing, AcceptsAttribute, Nodes, Tree.Valid;
    forall y
      ensures y in own + rest <==> Selects(t, AncestorOrSelf, test, x, y)
    {
      OwnIs(t, test, x, y, own);
    }
    DescendingAfter(own, rest, x);
  }

  /** The nodes among the ancestors of an attribute, and that they come before it. */
  lemma AncestorsAre(t: Tree, test: NodeTest, x: Item, rest: seq<Item>)
    requires t.Valid() && InDoc(t, x) && x.attr != -1 && rest == Nodes(Listing(t, AncestorOrSelf, test, x.node))
    ensures forall y :: y in rest <==> y.attr == -1 && Selects(t, AncestorOrSelf, test, x, y)
    ensures Descending(rest) && forall y :: y in rest ==> Before(y, x)
  {
    NodesOfListing(t, AncestorOrSelf, test, x.node);
    SelectedNode(t, AncestorOrSelf, test, x.node);
    AncestorsBefore(t, x.node);
    hide Tree.Nested, Listing, Nodes, Selected, Accepts, AcceptsAttribute, OnAxis, Descending;
  }

  lemma OwnIs(t: Tree, test: NodeTest, x: Item, y: Item, own: seq<Item>)
    requires t.Valid() && InDoc(t, x) && x.attr != -1
    requires own == if test == TestNode && AcceptsAttribute(test, t.data[x.node].attributes[x.attr]) then [x] else []
    ensures y.attr != -1 ==> (y in own <==> Selects(t, AncestorOrSelf, test, x, y))
    ensures y.attr == -1 ==> y !in own
  {
    hide Tree.Nested, AcceptsAttribute;
  }

  lemma DescendingAfter(own: seq<Item>, rest: seq<Item>, x: Item)
    requires (own == [] || own == [x]) && Descending(rest) && forall y :: y in rest ==> Before(y, x)
    ensures Descending(own + rest)
  {
  }

  lemma AncestorsBefore(t: Tree, i: nat)
    requires t.Valid() && i < t.Count()
    ensures forall j: nat :: j < t.Count() && OnAxis(t, AncestorOrSelf, i, j) ==> j <= i
  {
    hide Tree.Nested;
  }

  lemma StepListOfAttribute(t: Tree, axis: Axis, test: NodeTest, x: Item)
    requires t.Valid() && InDoc(t, x) && x.attr != -1
    ensures forall y :: y in StepList(t, axis, test, x) <==> Selects(t, axis, test, x, y)
    ensures if IsReverse(axis) then Descending(StepList(t, axis, test, x)) else Ascending(StepList(t, axis, test, x))
  {
    match axis
    case Following => FollowingOfAttribute(t, test, x);
    case Preceding => SharedOfAttribute(t, axis, Preceding, test, x);
    case Parent => SharedOfAttribute(t, axis, Self, test, x);
    case Ancestor => SharedOfAttribute(t, axis, AncestorOrSelf, test, x);
    case AncestorOrSelf => AncestorsOfAttribute(t, test, x);
    case Self => OwnOfAttribute(t, axis, test, x);
    case DescendantOrSelf => OwnOfAttribute(t, axis, test, x);
    case _ => EmptyOfAttribute(t, axis, test, x);
  }

  lemma EmptyOfAttribute(t: Tree, axis: Axis, test: NodeTest, x: Item)
    requires t.Valid() && InDoc(t, x) && x.attr != -1
    requires axis in {Child, Descendant, FollowingSibling, PrecedingSibling, AttributeAxis, Namespace}
    ensures StepList(t, axis, test, x) == [] && forall y :: !Selects(t, axis, test, x, y)
  {
    hide Tree.Nested, Listing, Up, Down, Accepts, AcceptsAttribute, Nodes, Selected, OnAxis;
  }

  /** The step list has exactly the nodes that the step selects, in document order or, on a reverse axis, against it. */
  lemma StepListExact(t: Tree, axis: Axis, test: NodeTest, x: Item)
    requires t.Valid()
    ensures forall y :: y in StepList(t, axis, test, x) <==> Selects(t, axis, test, x, y)
    ensures if IsReverse(axis) then Descending(StepList(t, axis, test, x)) else Ascending(StepList(t, axis, test, x))
  {
    if InDoc(t, x) {
      if x.attr == -1 {
        StepListOfNode(t, axis, test, x);
      } else {
        StepListOfAttribute(t, axis, test, x);
      }
    }
  }
}
