/**
 When the places of parsed nodes in the buffer say which of two nodes comes first.
 */
module BufferOrder {

  import opened Common
  import opened XmlTree
  import opened XmlRecords
  import opened XmlParser
  import opened XmlPlan
  import opened XPathLibrary
  import opened XPathModel
  import opened XPathNodeSets
  import Traversal

  /** document_buffer_order: where the name of a node or an attribute begins, or else the value of a node. */
  function BufferKey(nodes: seq<NodeRec>, x: Item): Option<nat> {
    if x.node >= |nodes| then None
    else if x.attr == -1 then (if NodeKey(nodes[x.node]) >= 0 then Some(NodeKey(nodes[x.node])) else None)
    else if 0 <= x.attr < |nodes[x.node].attributes| && nodes[x.node].attributes[x.attr].name >= 0
    then Some(nodes[x.node].attributes[x.attr].name)
    else None
  }

  function Keys(nodes: seq<NodeRec>): Item -> Option<nat> {
    x => BufferKey(nodes, x)
  }

  /** The nodes of the document have been made from the records, with their attributes. */
  ghost predicate MadeFrom(t: Tree, nodes: seq<NodeRec>) {
    |nodes| == t.Count() && forall i :: 0 <= i < |nodes| ==> |nodes[i].attributes| == |t.data[i].attributes|
  }

  lemma {:induction false} AttributesApart(r: NodeRec, a: nat, b: nat)
    requires AttributesAscend(r) && a < b <= |r.attributes|
    ensures KeyBefore(r, a) < KeyBefore(r, b)
    decreases b - a
  {
    assert KeyBefore(r, b - 1) < r.attributes[b - 1].name == KeyBefore(r, b);
    if a < b - 1 {
      AttributesApart(r, a, b - 1);
    }
  }

  /** The key of an item, as a place in its node's record. */
  lemma KeyIs(t: Tree, nodes: seq<NodeRec>, n: nat, x: Item)
    requires Sound(nodes, n) && HaveKeys(nodes) && MadeFrom(t, nodes) && InDoc(t, x)
    ensures
      var k := KeyBefore(nodes[x.node], x.attr + 1);
      && (BufferKey(nodes, x) == if x == NodeItem(0) then None else Some(k))
      && (x == NodeItem(0) ==> k == -1)
  {
    assert AttributesNamed(nodes[x.node]);
  }

  lemma LastIs(r: NodeRec)
    ensures LastKey(r) == KeyBefore(r, |r.attributes|)
  {
  }

  lemma Apart(nodes: seq<NodeRec>, x: Item, y: Item)
    requires KeysAscend(nodes) && x.node < |nodes| && y.node < |nodes| && Before(x, y)
    requires -1 <= x.attr < |nodes[x.node].attributes| && -1 <= y.attr < |nodes[y.node].attributes|
    ensures KeyBefore(nodes[x.node], x.attr + 1) < KeyBefore(nodes[y.node], y.attr + 1)
  {
    var r, s := nodes[x.node], nodes[y.node];
    assert AttributesAscend(r) && AttributesAscend(s);
    hide AttributesAscend, KeyBefore, LastKey, NodeKey;
    if x.node == y.node {
      AttributesApart(r, x.attr + 1, y.attr + 1);
    } else {
      KeysInside(r, x.attr + 1);
      KeysInside(s, y.attr + 1);
    }
  }

  lemma KeysInside(r: NodeRec, m: nat)
    requires AttributesAscend(r) && m <= |r.attributes|
    ensures NodeKey(r) <= KeyBefore(r, m) <= LastKey(r)
  {
    hide AttributesAscend;
    LastIs(r);
    if m > 0 {
      AttributesApart(r, 0, m);
    }
    if m < |r.attributes| {
      AttributesApart(r, m, |r.attributes|);
    }
  }

  /**
   For a parsed document, the shortcut is right exactly if no attribute was appended to a node that was not the
   newest.
   */
  lemma ShortcutIsRight(t: Tree, nodes: seq<NodeRec>, n: nat)
    requires Sound(nodes, n) && HaveKeys(nodes) && MadeFrom(t, nodes)
    ensures KeysFollow(t, Keys(nodes)) <==> KeysAscend(nodes)
  {
    hide Sound, HaveKeys, KeysAscend, BufferKey;
    if KeysAscend(nodes) {
      forall x, y | InDoc(t, x) && InDoc(t, y) && Before(x, y)
        ensures Keys(nodes)(x).Some? && Keys(nodes)(y).Some? ==> Keys(nodes)(x).value < Keys(nodes)(y).value
      {
        KeyIs(t, nodes, n, x);
        KeyIs(t, nodes, n, y);
        Apart(nodes, x, y);
      }
    }
    if KeysFollow(t, Keys(nodes)) {
      KeysMustAscend(t, nodes, n);
    }
  }

  lemma KeysMustAscend(t: Tree, nodes: seq<NodeRec>, n: nat)
    requires Sound(nodes, n) && HaveKeys(nodes) && MadeFrom(t, nodes) && KeysFollow(t, Keys(nodes))
    ensures KeysAscend(nodes)
  {
    hide Sound, HaveKeys, KeysFollow, MadeFrom, BufferKey, InDoc;
    forall i | 0 <= i < |nodes|
      ensures AttributesAscend(nodes[i])
    {
      forall m | 0 <= m < |nodes[i].attributes|
        ensures KeyBefore(nodes[i], m) < nodes[i].attributes[m].name
      {
        MustFollow(t, nodes, n, Item(i, m - 1), Item(i, m));
      }
    }
    forall i, j | 0 <= i < j < |nodes|
      ensures LastKey(nodes[i]) < NodeKey(nodes[j])
    {
      LastIs(nodes[i]);
      MustFollow(t, nodes, n, Item(i, |nodes[i].attributes| - 1), Item(j, -1));
    }
  }

  lemma MustFollow(t: Tree, nodes: seq<NodeRec>, n: nat, x: Item, y: Item)
    requires Sound(nodes, n) && HaveKeys(nodes) && MadeFrom(t, nodes) && KeysFollow(t, Keys(nodes)) && Before(x, y)
    requires x.node < |nodes| && -1 <= x.attr < |nodes[x.node].attributes|
    requires y.node < |nodes| && -1 <= y.attr < |nodes[y.node].attributes|
    ensures KeyBefore(nodes[x.node], x.attr + 1) < KeyBefore(nodes[y.node], y.attr + 1)
  {
    hide Sound, HaveKeys, BufferKey;
    KeyIs(t, nodes, n, x);
    KeyIs(t, nodes, n, y);
    assert Keys(nodes)(x) == BufferKey(nodes, x) && Keys(nodes)(y) == BufferKey(nodes, y);
    RootFirst(t, nodes, n, x, y);
  }

  lemma RootFirst(t: Tree, nodes: seq<NodeRec>, n: nat, x: Item, y: Item)
    requires Sound(nodes, n) && Before(x, y) && y.node < |nodes| && -1 <= y.attr < |nodes[y.node].attributes|
    requires x.attr >= -1
    ensures y != NodeItem(0)
  {
  }

  /** The comparison on a parsed document that was read without its declaration, or in which none was left open. */
  method ParsedIsBefore(t: Tree, h: Traversal.Heap, nodes: seq<NodeRec>, ghost n: nat, x: Item, y: Item)
    returns (r: bool)
    requires Traversal.Linked(t, h) && MadeFrom(t, nodes) && InDoc(t, x) && InDoc(t, y) && x != y
    requires Sound(nodes, n) && HaveKeys(nodes) && KeysAscend(nodes)
    ensures r == Before(x, y)
  {
    ShortcutIsRight(t, nodes, n);
    hide Sound, HaveKeys, KeysAscend, KeysFollow, MadeFrom, Keys;
    r := ItemIsBefore(t, h, Keys(nodes), x, y);
  }
}
