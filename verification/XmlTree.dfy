/**
 The node tree of a document, numbered in document order.

 A node's number is its position in the preorder walk of its document, so the
 subtree of node i is the interval [i, i + size[i]).  Axes are defined on these
 intervals (section 2.2 of XPath 1.0), independently of any traversal.
 */
module XmlTree {

  datatype Kind = KDocument | KElement | KPcdata | KCdata | KComment | KPi | KDeclaration | KDoctype

  datatype Attribute = Attribute(name: string, value: string)

  /** What a node carries besides its links; an absent name or value is the empty string. */
  datatype NodeData = NodeData(kind: Kind, name: string, value: string, attributes: seq<Attribute>)

  /** prev[i] is the node that prev_sibling_c points to: the previous sibling, or for a first child the last one. */
  datatype Tree = Tree(data: seq<NodeData>, parent: seq<int>, size: seq<nat>, prev: seq<nat>) {

    function Count(): nat {
      |data|
    }

    ghost predicate Valid() {
      Sized() && Nested()
    }

    ghost predicate Sized() {
      && 0 < |data| == |parent| == |size| == |prev|
      && parent[0] == -1 && size[0] == |data| && prev[0] == 0
      && (forall i {:trigger size[i]} :: 0 <= i < |data| ==> 1 <= size[i] && i + size[i] <= |data|)
      && (forall i {:trigger parent[i]} :: 0 < i < |data| ==> 0 <= parent[i] < i)
    }

    ghost predicate Nested()
      requires Sized()
    {
      && (forall i {:trigger parent[i]} :: 0 < i < |data| ==> i + size[i] <= parent[i] + size[parent[i]])
      // the parent is the innermost enclosing subtree
      && (forall i, j {:trigger Pair(i, j)} :: 0 < i < |data| && parent[i] < j < i && Pair(i, j) ==> j + size[j] <= i)
      // subtrees are nested or disjoint
      && (forall i, j {:trigger Pair(i, j)} ::
            0 <= i < j < |data| && j < i + size[i] && Pair(i, j) ==> j + size[j] <= i + size[i])
      && (forall i {:trigger prev[i]} :: 0 < i < |data| ==> PrevRight(i, prev[i]))
    }

    /** Only directs the verifier to a pair of nodes; it holds of every pair. */
    ghost predicate Pair(i: int, j: int) {
      true
    }

    /** No subtree that starts between a node and its parent contains the node. */
    lemma ParentIsInnermost(i: nat, j: nat)
      requires Valid() && 0 < i < Count() && parent[i] < j < i
      ensures j + size[j] <= i
    {
      assert Pair(i, j);
    }

    lemma SubtreeInside(i: nat, j: nat)
      requires Valid() && i < j < Count() && j < i + size[i]
      ensures j + size[j] <= i + size[i]
    {
      assert Pair(i, j);
    }

    ghost predicate PrevRight(i: nat, k: nat)
      requires Sized() && 0 < i < |data|
    {
      && 0 < k < |data| && parent[k] == parent[i]
      && (if i == parent[i] + 1 then k + size[k] == parent[i] + size[parent[i]] else k < i && k + size[k] == i)
    }

    function FirstChild(i: nat): int
      requires i < |size|
    {
      if 1 < size[i] then i + 1 else -1
    }

    function NextSibling(i: nat): int
      requires i < |size| && i < |parent|
      requires 0 < i ==> 0 <= parent[i] < |size|
    {
      if 0 < i && i + size[i] < parent[i] + size[parent[i]] then i + size[i] else -1
    }

    /** Number of proper ancestors. */
    ghost function Depth(i: nat): nat
      requires Valid() && i < Count()
      decreases i
    {
      if i == 0 then 0 else 1 + Depth(parent[i])
    }

    ghost predicate IsAncestor(a: int, i: int)
      requires |size| == |data|
    {
      0 <= a < i && i < |data| && i < a + size[a]
    }

    /** Two siblings in order: the left one has a next sibling, which is not past the right one. */
    lemma SiblingStep(a: nat, b: nat)
      requires Valid() && 0 < a < b < Count() && parent[a] == parent[b]
      ensures NextSibling(a) == a + size[a] <= b
      ensures parent[a + size[a]] == parent[a]
    {
      ParentIsInnermost(b, a);
      NextIsSibling(a);
    }

    lemma NextIsSibling(a: nat)
      requires Valid() && 0 < a < Count() && NextSibling(a) != -1
      ensures 0 < NextSibling(a) < Count() && parent[NextSibling(a)] == parent[a]
    {
      var c, p := a + size[a], parent[a];
      var q := parent[c];
      if q < p {
        ParentIsInnermost(c, p);
      } else if p < q < a {
        ParentIsInnermost(a, q);
      } else if a < q {
        SubtreeInside(a, q);
      }
    }

    /** Without a next sibling, a node's subtree ends where its parent's does. */
    lemma LastChildEnds(a: nat)
      requires Valid() && 0 < a < Count() && NextSibling(a) == -1
      ensures a + size[a] == parent[a] + size[parent[a]]
    {
    }

    lemma ParentEnds(a: nat)
      requires Valid() && 0 < a < Count()
      ensures 0 <= parent[a] < a && a + size[a] <= parent[a] + size[parent[a]]
    {
    }

    lemma FirstChildIsChild(i: nat)
      requires Valid() && i < Count() && FirstChild(i) != -1
      ensures FirstChild(i) < Count() && parent[FirstChild(i)] == i
    {
      if parent[i + 1] < i {
        ParentIsInnermost(i + 1, i);
      }
    }

    /** An ancestor of a node is its parent or an ancestor of its parent. */
    lemma AncestorOfParent(a: nat, i: nat)
      requires Valid() && IsAncestor(a, i)
      ensures a == parent[i] || IsAncestor(a, parent[i])
      ensures parent[i] + size[parent[i]] <= a + size[a]
    {
      if parent[i] < a {
        ParentIsInnermost(i, a);
      }
      if a < parent[i] {
        SubtreeInside(a, parent[i]);
      }
    }
  }

  datatype Axis =
    | Ancestor | AncestorOrSelf | AttributeAxis | Child | Descendant | DescendantOrSelf | Following
    | FollowingSibling | Namespace | Parent | Preceding | PrecedingSibling | Self

  predicate IsReverse(axis: Axis) {
    axis.Ancestor? || axis.AncestorOrSelf? || axis.Preceding? || axis.PrecedingSibling?
  }

  /** Node j is on the given axis of node i. */
  predicate OnAxis(t: Tree, axis: Axis, i: nat, j: nat)
    requires |t.parent| == |t.size| && i < |t.size| && j < |t.size|
  {
    match axis
    case Self => j == i
    case Parent => 0 < i && j == t.parent[i]
    case Child => 0 < j && t.parent[j] == i
    case Descendant => i < j < i + t.size[i]
    case DescendantOrSelf => i <= j < i + t.size[i]
    case Ancestor => j < i < j + t.size[j]
    case AncestorOrSelf => j <= i < j + t.size[j]
    case Following => i + t.size[i] <= j
    case Preceding => j + t.size[j] <= i
    case FollowingSibling => 0 < i < j && t.parent[j] == t.parent[i]
    case PrecedingSibling => 0 < j < i && t.parent[j] == t.parent[i]
    case AttributeAxis => false
    case Namespace => false
  }

  datatype NodeTest =
    | TestName(name: string) | TestNode | TestComment | TestPi | TestText | TestPiNamed(target: string)
    | TestAll | TestNamespace(prefix: string)

  predicate StartsWith(s: string, prefix: string) {
    prefix <= s
  }

  /** The node test of a step, for nodes that are not attributes. */
  predicate Accepts(test: NodeTest, d: NodeData) {
    match test
    case TestName(n) => d.kind.KElement? && d.name != "" && d.name == n
    case TestNode => true
    case TestComment => d.kind.KComment?
    case TestText => d.kind.KPcdata? || d.kind.KCdata?
    case TestPi => d.kind.KPi?
    case TestPiNamed(n) => d.kind.KPi? && d.name != "" && d.name == n
    case TestAll => d.kind.KElement?
    case TestNamespace(p) => d.kind.KElement? && d.name != "" && StartsWith(d.name, p)
  }

  /** The nodes that a step selects from node i. */
  function Selected(t: Tree, axis: Axis, test: NodeTest, i: nat): (s: set<nat>)
    requires |t.data| == |t.parent| == |t.size| && i < t.Count()
  {
    set j: nat | j < t.Count() && OnAxis(t, axis, i, j) && Accepts(test, t.data[j])
  }

  /** The elements of s below hi, in document order. */
  function Up(s: set<nat>, hi: nat): seq<nat> {
    if hi == 0 then [] else Up(s, hi - 1) + (if hi - 1 in s then [hi - 1] else [])
  }

  /** The elements of s in [lo, hi), in reverse document order. */
  function Down(s: set<nat>, lo: nat, hi: nat): seq<nat>
    decreases hi - lo
  {
    if hi <= lo then [] else Down(s, lo + 1, hi) + (if lo in s then [lo] else [])
  }

  /** The nodes that a step selects from node i, in the order of its axis. */
  function Listing(t: Tree, axis: Axis, test: NodeTest, i: nat): seq<nat>
    requires |t.data| == |t.parent| == |t.size| && i < t.Count()
  {
    var s := Selected(t, axis, test, i);
    if IsReverse(axis) then Down(s, 0, t.Count()) else Up(s, t.Count())
  }

  lemma {:induction false} UpLists(s: set<nat>, hi: nat)
    ensures forall j :: j in Up(s, hi) <==> j in s && j < hi
    ensures forall a, b :: 0 <= a < b < |Up(s, hi)| ==> Up(s, hi)[a] < Up(s, hi)[b]
  {
    if hi != 0 {
      UpLists(s, hi - 1);
      var below := Up(s, hi - 1);
      assert forall a :: 0 <= a < |below| ==> below[a] in below;
    }
  }

  lemma {:induction false} DownLists(s: set<nat>, lo: nat, hi: nat)
    ensures forall j :: j in Down(s, lo, hi) <==> j in s && lo <= j < hi
    ensures forall a, b :: 0 <= a < b < |Down(s, lo, hi)| ==> Down(s, lo, hi)[a] > Down(s, lo, hi)[b]
    decreases hi - lo
  {
    if lo < hi {
      DownLists(s, lo + 1, hi);
      var above := Down(s, lo + 1, hi);
      assert forall a :: 0 <= a < |above| ==> above[a] in above;
    }
  }

  /** A listing has exactly the selected nodes, without repeats, in document order or against it. */
  lemma ListingExact(t: Tree, axis: Axis, test: NodeTest, i: nat)
    requires |t.data| == |t.parent| == |t.size| && i < t.Count()
    ensures forall j :: j in Listing(t, axis, test, i) <==> j in Selected(t, axis, test, i)
    ensures
      var r := Listing(t, axis, test, i);
      forall a, b :: 0 <= a < b < |r| ==> if IsReverse(axis) then r[a] > r[b] else r[a] < r[b]
  {
    UpLists(Selected(t, axis, test, i), t.Count());
    DownLists(Selected(t, axis, test, i), 0, t.Count());
  }

  lemma {:induction false} UpSkip(s: set<nat>, lo: nat, hi: nat)
    requires lo <= hi && forall j :: lo <= j < hi ==> j !in s
    ensures Up(s, hi) == Up(s, lo)
    decreases hi
  {
    if lo < hi {
      UpSkip(s, lo, hi - 1);
    }
  }

  lemma {:induction false} DownSkip(s: set<nat>, lo: nat, mid: nat, hi: nat)
    requires lo <= mid <= hi && forall j :: lo <= j < mid ==> j !in s
    ensures Down(s, lo, hi) == Down(s, mid, hi)
    decreases mid - lo
  {
    if lo < mid {
      DownSkip(s, lo + 1, mid, hi);
    }
  }

  /** The axes of section 2.2 of XPath 1.0 that partition the nodes of a document. */
  const PARTITION := [Ancestor, Descendant, Following, Preceding, Self]

  /** How many of the first k of these axes list node j when a step from node i accepts every node. */
  ghost function Listed(t: Tree, i: nat, j: nat, k: nat): nat
    requires |t.data| == |t.parent| == |t.size| && i < t.Count() && k <= 5
  {
    if k == 0 then 0
    else Listed(t, i, j, k - 1) + multiset(Listing(t, PARTITION[k - 1], TestNode, i))[j]
  }

  lemma CountInListing(t: Tree, axis: Axis, i: nat, j: nat)
    requires |t.data| == |t.parent| == |t.size| && i < t.Count() && j < t.Count()
    ensures multiset(Listing(t, axis, TestNode, i))[j] == if OnAxis(t, axis, i, j) then 1 else 0
  {
    var r := Listing(t, axis, TestNode, i);
    ListingExact(t, axis, TestNode, i);
    assert j in r <==> OnAxis(t, axis, i, j);
    hide Listing, OnAxis;
    if j in r {
      var k :| 0 <= k < |r| && r[k] == j;
      OccursOnce(r, k);
    }
  }

  lemma OccursOnce(r: seq<nat>, k: nat)
    requires k < |r| && forall i :: 0 <= i < |r| && i != k ==> r[i] != r[k]
    ensures multiset(r)[r[k]] == 1
  {
    var left, right := r[..k], r[k + 1..];
    assert r == left + [r[k]] + right;
    assert r[k] !in left && r[k] !in right;
    assert multiset(r) == multiset(left) + multiset{r[k]} + multiset(right);
  }

  /**
   Together the walks over ancestors, descendants, following and preceding nodes and the node itself visit every node
   once.
   */
  lemma AxesPartition(t: Tree, i: nat, j: nat)
    requires t.Valid() && i < t.Count() && j < t.Count()
    ensures Listed(t, i, j, 5) == 1
  {
    hide Listing;
    forall axis: Axis
      ensures multiset(Listing(t, axis, TestNode, i))[j] == if OnAxis(t, axis, i, j) then 1 else 0
    {
      CountInListing(t, axis, i, j);
    }
    assert Listed(t, i, j, 0) == 0;
    assert Listed(t, i, j, 2) == Listed(t, i, j, 1) + multiset(Listing(t, Descendant, TestNode, i))[j];
    assert Listed(t, i, j, 4) == Listed(t, i, j, 3) + multiset(Listing(t, Preceding, TestNode, i))[j];
  }
}
