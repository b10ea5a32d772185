/**
 One step of a location path from one context node: the overloads of step_fill
 for element and attribute context nodes.
 */
module XPathSteps {
  import opened Common
  import opened XmlTree
  import opened Traversal
  import opened XPathLibrary
  import opened XPathModel
  import opened XPathLists

  lemma NodesTaken(idx: seq<nat>, once: bool)
    ensures Nodes(Taken(idx, once)) == Taken(Nodes(idx), once)
  {
  }

  lemma TakenShort(list: seq<Item>, once: bool)
    ensures |list| <= 1 ==> Taken(list, once) == list
    ensures !once ==> Taken(list, once) == list
  {
  }

  lemma TakenBehind(x: Item, rest: seq<Item>)
    ensures Taken([x] + rest, true) == [x]
  {
  }

  /** step_push for an attribute. */
  method AttributePush(t: Tree, x: Item, test: NodeTest, out: seq<Item>) returns (out': seq<Item>, pushed: bool)
    requires InDoc(t, x) && 0 <= x.attr
    ensures pushed == AcceptsAttribute(test, t.data[x.node].attributes[x.attr])
    ensures out' == if pushed then out + [x] else out
  {
    var name := t.data[x.node].attributes[x.attr].name;
    match test {
      case TestName(n) => pushed := name == n && IsXPathAttribute(name);
      case TestNode => pushed := IsXPathAttribute(name);
      case TestAll => pushed := IsXPathAttribute(name);
      case TestNamespace(p) => pushed := StartsWith(name, p) && IsXPathAttribute(name);
      case _ => pushed := false;
    }
    out' := if pushed then out + [x] else out;
  }

  lemma AttributeListFirst(t: Tree, i: nat, test: NodeTest, k: nat)
    requires i < t.Count() && k < |t.data[i].attributes|
    ensures AttributeList(t, i, test, k) ==
      (if AcceptsAttribute(test, t.data[i].attributes[k]) then [Item(i, k)] else []) + AttributeList(t, i, test, k + 1)
  {
  }

  lemma PushedBetween(before: seq<Item>, x: Item, pushed: bool, rest: seq<Item>)
    ensures before + ((if pushed then [x] else []) + rest) == (if pushed then before + [x] else before) + rest
  {
  }

  /** The attribute axis. */
  method FillAttributes(t: Tree, i: nat, test: NodeTest, once: bool) returns (out: seq<Item>)
    requires i < t.Count()
    ensures out == Taken(AttributeList(t, i, test, 0), once)
  {
    hide AcceptsAttribute, AttributeList, Taken;
    out := [];
    var k := 0;
    ghost var all := AttributeList(t, i, test, 0);
    while k < |t.data[i].attributes|
      invariant k <= |t.data[i].attributes| && (once ==> out == [])
      invariant all == out + AttributeList(t, i, test, k)
    {
      AttributeListFirst(t, i, test, k);
      ghost var before, rest := out, AttributeList(t, i, test, k + 1);
      var pushed;
      out, pushed := AttributePush(t, Item(i, k), test, out);
      PushedBetween(before, Item(i, k), pushed, rest);
      if pushed && once {
        TakenBehind(Item(i, k), rest);
        assert out == [Item(i, k)];
        return;
      }
      k := k + 1;
    }
    AttributeListEnd(t, i, test);
    TakenShort(all, once);
  }

  lemma AttributeListEnd(t: Tree, i: nat, test: NodeTest)
    requires i < t.Count()
    ensures AttributeList(t, i, test, |t.data[i].attributes|) == []
  {
  }

  /** The ancestors of an attribute and itself. */
  method FillAncestorsOfAttribute(t: Tree, h: Heap, x: Item, test: NodeTest, once: bool) returns (out: seq<Item>)
    requires Linked(t, h) && InDoc(t, x) && 0 <= x.attr
    ensures out == Taken(StepList(t, AncestorOrSelf, test, x), once)
  {
    hide Tree.Nested, AcceptsAttribute, Listing, Taken, Accepts, Nodes;
    ghost var all := Nodes(Listing(t, AncestorOrSelf, test, x.node));
    NodesTaken(Listing(t, AncestorOrSelf, test, x.node), once);
    out := [];
    if test == TestNode {
      var pushed;
      out, pushed := AttributePush(t, x, test, out);
      if pushed && once {
        TakenBehind(x, all);
        return;
      }
    }
    var nodes := FillAncestors(t, h, x.node, test, once, true);
    assert StepList(t, AncestorOrSelf, test, x) == out + all;
    if once {
      assert out + all == all && out + Nodes(nodes) == Nodes(nodes);
    } else {
      TakenShort(all, once);
      TakenShort(out + all, once);
    }
    out := out + Nodes(nodes);
  }

  /** step_fill from an attribute of element x.node. */
  method FillFromAttribute(t: Tree, h: Heap, x: Item, axis: Axis, test: NodeTest, once: bool) returns (out: seq<Item>)
    requires Linked(t, h) && InDoc(t, x) && 0 <= x.attr
    ensures out == Taken(StepList(t, axis, test, x), once)
  {
    hide Tree.Nested, AcceptsAttribute, Listing, Selected, Up, Taken, Accepts;
    var p := x.node;
    var nodes: seq<nat>;
    TakenShort([x], once);
    TakenShort([], once);
    match axis {
      case AncestorOrSelf =>
        out := FillAncestorsOfAttribute(t, h, x, test, once);
      case Ancestor =>
        NodesTaken(Listing(t, AncestorOrSelf, test, p), once);
        nodes := FillAncestors(t, h, p, test, once, true);
        out := Nodes(nodes);
      case Following =>
        NodesTaken(Up(Selected(t, Descendant, test, p) + Selected(t, Following, test, p), |h|), once);
        nodes := FillFollowingOfAttribute(t, h, p, test, once);
        out := Nodes(nodes);
      case Preceding =>
        NodesTaken(Listing(t, Preceding, test, p), once);
        nodes := FillPreceding(t, h, p, test, once);
        out := Nodes(nodes);
      case Parent =>
        NodesTaken(Listing(t, Self, test, p), once);
        nodes := Traversal.StepFill(t, h, p, Self, test, once);
        out := Nodes(nodes);
      case Self =>
        out := [];
        if test == TestNode {
          var pushed;
          out, pushed := AttributePush(t, x, test, out);
        }
      case DescendantOrSelf =>
        out := [];
        if test == TestNode {
          var pushed;
          out, pushed := AttributePush(t, x, test, out);
        }
      case _ => out := [];
    }
  }

  /** step_fill from any context node, which may be null: then nothing is selected. */
  method StepFill(t: Tree, h: Heap, x: Item, axis: Axis, test: NodeTest, once: bool) returns (out: seq<Item>)
    requires Linked(t, h)
    ensures out == Taken(StepList(t, axis, test, x), once)
  {
    if !InDoc(t, x) {
      out := [];
    } else if x.attr != -1 {
      out := FillFromAttribute(t, h, x, axis, test, once);
    } else if axis == AttributeAxis {
      out := FillAttributes(t, x.node, test, once);
    } else {
      NodesTaken(Listing(t, axis, test, x.node), once);
      var nodes := Traversal.StepFill(t, h, x.node, axis, test, once);
      out := Nodes(nodes);
    }
  }
}
