/**
 Stackless traversal of the linked node tree: the axis walks of the XPath engine
 and its document-order comparison, on the four link fields of a node.

 None of this code writes a link or compares two addresses by size, so a node's
 address is taken to be its number in document order, and null to be -1.
 */
module Traversal {
  import opened Common
  import opened XmlTree

  datatype XmlNode = XmlNode(
    kind: Kind,
    name: string,
    parent: int,
    firstChild: int,
    prevSiblingC: int,  // circular: a first child points to the last one
    nextSibling: int)   // null-terminated

  type Heap = seq<XmlNode>

  const NULL: int := -1

  /** The link fields of the nodes are those of the tree t. */
  ghost predicate Linked(t: Tree, h: Heap) {
    && t.Valid() && |h| == t.Count()
    && forall i {:trigger h[i]} :: 0 <= i < |h| ==>
      && h[i].kind == t.data[i].kind && h[i].name == t.data[i].name
      && h[i].parent == t.parent[i]
      && h[i].firstChild == t.FirstChild(i)
      && h[i].prevSiblingC == t.prev[i]
      && h[i].nextSibling == t.NextSibling(i)
  }

  lemma {:induction false} UpPrefix(s: set<nat>, a: nat, b: nat)
    requires a <= b
    ensures Up(s, a) <= Up(s, b)
    decreases b
  {
    if a < b {
      UpPrefix(s, a, b - 1);
    }
  }

  lemma {:induction false} DownPrefix(s: set<nat>, lo: nat, mid: nat, hi: nat)
    requires lo <= mid <= hi
    ensures Down(s, mid, hi) <= Down(s, lo, hi)
    decreases mid - lo
  {
    if lo < mid {
      DownPrefix(s, lo + 1, mid, hi);
    }
  }

  /** step_push: append the node if the node test accepts it. */
  method StepPush(ghost t: Tree, h: Heap, n: nat, test: NodeTest, out: seq<nat>)
    returns (out': seq<nat>, pushed: bool)
    requires Linked(t, h) && n < |h|
    ensures pushed == Accepts(test, t.data[n])
    ensures out' == if pushed then out + [n] else out
  {
    var node := h[n];
    match test {
      case TestName(name) => pushed := node.kind == KElement && node.name != "" && node.name == name;
      case TestNode => pushed := true;
      case TestComment => pushed := node.kind == KComment;
      case TestText => pushed := node.kind == KPcdata || node.kind == KCdata;
      case TestPi => pushed := node.kind == KPi;
      case TestPiNamed(target) => pushed := node.kind == KPi && node.name != "" && node.name == target;
      case TestAll => pushed := node.kind == KElement;
      case TestNamespace(prefix) =>
        pushed := node.kind == KElement && node.name != "" && StartsWith(node.name, prefix);
    }
    out' := if pushed then out + [n] else out;
  }

  /** Where the subtree of node i ends; null stands for the whole document. */
  ghost function SubtreeEnd(t: Tree, i: int): nat
    requires |t.size| == t.Count() && i < t.Count()
  {
    if i < 0 then t.Count() else i + t.size[i]
  }

  /** A walk either covered its whole range or, with `once`, stopped at the first accepted node. */
  ghost predicate Finished(k: nat, end: nat, once: bool, out: seq<nat>) {
    if once then |out| == 1 || (k == end && out == []) else k == end
  }

  /**
   The step that the forward walks share: into the first child, or else up to the nearest ancestor with a next
   sibling, giving up when the climb reaches `stop` (null: when it leaves the document).
   */
  method Advance(ghost t: Tree, h: Heap, cur: nat, stop: int) returns (next: int)
    requires Linked(t, h) && cur < |h|
    requires stop == NULL || t.IsAncestor(stop, cur)
    ensures next == if cur + 1 < SubtreeEnd(t, stop) then cur + 1 else NULL
  {
    if h[cur].firstChild != NULL {
      if stop != NULL {
        t.SubtreeInside(stop, cur);
      }
      return h[cur].firstChild;
    }
    next := cur;
    while h[next].nextSibling == NULL
      invariant stop < next <= cur && next + t.size[next] == cur + 1
      invariant stop == NULL || t.IsAncestor(stop, next)
      decreases next
    {
      if next != 0 {
        t.LastChildEnds(next);
        if stop != NULL {
          t.AncestorOfParent(stop, next);
        }
      }
      next := h[next].parent;
      if next == stop {
        return NULL;
      }
    }
    if stop != NULL {
      t.AncestorOfParent(stop, next);
    }
    next := h[next].nextSibling;
  }

  /** s agrees with the node test on [lo, hi). */
  ghost predicate Agrees(t: Tree, s: set<nat>, test: NodeTest, lo: nat, hi: nat)
    requires hi <= t.Count()
  {
    forall j :: lo <= j < hi ==> (j in s <==> Accepts(test, t.data[j]))
  }

  lemma ForwardTurn(t: Tree, s: set<nat>, test: NodeTest, lo: nat, hi: nat, k: nat)
    requires hi <= t.Count() && Agrees(t, s, test, lo, hi) && lo <= k < hi
    ensures Up(s, k + 1) == Up(s, k) + (if Accepts(test, t.data[k]) then [k] else [])
  {
  }

  /** The loop of the forward walks: push what the test accepts, from `start` until Advance gives up. */
  method FillForward(ghost t: Tree, h: Heap, ghost lo: nat, ghost s: set<nat>, start: int, stop: int, test: NodeTest,
                     once: bool, acc: seq<nat>)
    returns (out: seq<nat>, ghost k: nat)
    requires Linked(t, h) && NULL <= stop < |h| && stop < lo <= SubtreeEnd(t, stop)
    requires start == if lo < SubtreeEnd(t, stop) then lo else NULL
    requires Agrees(t, s, test, lo, SubtreeEnd(t, stop))
    requires acc == Up(s, lo) && (once ==> acc == [])
    ensures k <= SubtreeEnd(t, stop) && out == Up(s, k) && Finished(k, SubtreeEnd(t, stop), once, out)
  {
    hide Tree.Nested, Tree.NextSibling, Tree.FirstChild, Up, Accepts, Agrees;
    ghost var end := SubtreeEnd(t, stop);
    var cur := start;
    out, k := acc, lo;
    while cur != NULL
      invariant stop < lo <= k <= end
      invariant cur == if k < end then k else NULL
      invariant out == Up(s, k) && (once ==> out == [])
      decreases end - k
    {
      var pushed;
      out, pushed := StepPush(t, h, cur, test, out);
      ForwardTurn(t, s, test, lo, end, k);
      k := k + 1;
      if pushed && once {
        return;
      }
      cur := Advance(t, h, cur, stop);
    }
  }

  /** A partial listing that is complete, or that stopped at its first node, is what the axis should give. */
  lemma UpTaken(out: seq<nat>, s: set<nat>, k: nat, end: nat, hi: nat, once: bool)
    requires k <= end <= hi && out == Up(s, k)
    requires forall j :: end <= j < hi ==> j !in s
    requires Finished(k, end, once, out)
    ensures out == Taken(Up(s, hi), once)
  {
    UpPrefix(s, k, hi);
    UpSkip(s, end, hi);
  }

  lemma DescendantsAgree(t: Tree, test: NodeTest, i: nat, orSelf: bool, s: set<nat>)
    requires t.Valid() && i < t.Count()
    requires s == Selected(t, if orSelf then DescendantOrSelf else Descendant, test, i)
    ensures Agrees(t, s, test, i + 1, i + t.size[i])
    ensures i in s <==> orSelf && Accepts(test, t.data[i])
    ensures Up(s, i) == [] && Up(s, i + 1) == if i in s then [i] else []
    ensures forall j :: i + t.size[i] <= j < t.Count() ==> j !in s
  {
    UpSkip(s, 0, i);
  }

  /** The descendant and descendant-or-self axes. */
  method FillDescendants(ghost t: Tree, h: Heap, n: nat, test: NodeTest, once: bool, orSelf: bool)
    returns (out: seq<nat>)
    requires Linked(t, h) && n < |h|
    ensures out == Taken(Listing(t, if orSelf then DescendantOrSelf else Descendant, test, n), once)
  {
    ghost var s := Selected(t, if orSelf then DescendantOrSelf else Descendant, test, n);
    DescendantsAgree(t, test, n, orSelf, s);
    hide Tree.Nested, OnAxis, Selected, Up, Accepts, Agrees;
    out := [];
    ghost var k := n + 1;
    var pushed := false;
    if orSelf {
      out, pushed := StepPush(t, h, n, test, out);
    }
    if !(pushed && once) {
      out, k := FillForward(t, h, n + 1, s, h[n].firstChild, n, test, once, out);
    }
    UpTaken(out, s, k, n + t.size[n], t.Count(), once);
  }

  lemma FollowingAgree(t: Tree, test: NodeTest, i: nat, s: set<nat>)
    requires t.Valid() && i < t.Count() && s == Selected(t, Following, test, i)
    ensures Agrees(t, s, test, i + t.size[i], t.Count()) && Up(s, i + t.size[i]) == []
  {
    UpSkip(s, 0, i + t.size[i]);
  }

  /** The following axis: leave the subtree of n, then walk to the end of the document. */
  method FillFollowing(ghost t: Tree, h: Heap, n: nat, test: NodeTest, once: bool) returns (out: seq<nat>)
    requires Linked(t, h) && n < |h|
    ensures out == Taken(Listing(t, Following, test, n), once)
  {
    ghost var s := Selected(t, Following, test, n);
    FollowingAgree(t, test, n, s);
    hide OnAxis, Selected, Up, Accepts, Agrees;
    var cur := n;
    while h[cur].nextSibling == NULL
      invariant 0 <= cur <= n && cur + t.size[cur] == n + t.size[n]
      decreases cur
    {
      if h[cur].parent == NULL {
        UpTaken([], s, n + t.size[n], t.Count(), t.Count(), once);
        return [];
      }
      t.LastChildEnds(cur);
      cur := h[cur].parent;
    }
    ghost var k;
    out, k := FillForward(t, h, n + t.size[n], s, h[cur].nextSibling, NULL, test, once, []);
    UpTaken(out, s, k, t.Count(), t.Count(), once);
  }

  lemma FollowingAttributeAgree(t: Tree, test: NodeTest, p: nat, s: set<nat>)
    requires t.Valid() && p < t.Count()
    requires s == Selected(t, Descendant, test, p) + Selected(t, Following, test, p)
    ensures Agrees(t, s, test, p + 1, t.Count()) && Up(s, p + 1) == []
  {
    UpSkip(s, 0, p + 1);
  }

  /** The following axis of an attribute of p: everything after p, its descendants included. */
  method FillFollowingOfAttribute(ghost t: Tree, h: Heap, p: nat, test: NodeTest, once: bool) returns (out: seq<nat>)
    requires Linked(t, h) && p < |h|
    ensures out == Taken(Up(Selected(t, Descendant, test, p) + Selected(t, Following, test, p), |h|), once)
  {
    ghost var s := Selected(t, Descendant, test, p) + Selected(t, Following, test, p);
    FollowingAttributeAgree(t, test, p, s);
    hide OnAxis, Selected, Up, Accepts, Agrees, Tree.Nested;
    var start := Advance(t, h, p, NULL);
    ghost var k;
    out, k := FillForward(t, h, p + 1, s, start, NULL, test, once, []);
    UpTaken(out, s, k, t.Count(), t.Count(), once);
  }

  /** k is a child of p, or the end of p's subtree: a stop of the walk along p's children. */
  ghost predicate OnChain(t: Tree, p: nat, k: nat)
    requires t.Valid() && p < t.Count()
  {
    p < k <= SubtreeEnd(t, p) && (k < SubtreeEnd(t, p) ==> t.parent[k] == p)
  }

  /** s agrees with the node test on the children of p numbered from lo on, and has nothing else in p's subtree. */
  ghost predicate AgreesOnChildren(t: Tree, s: set<nat>, test: NodeTest, p: nat, lo: nat)
    requires t.Valid() && p < t.Count()
  {
    forall j {:trigger j in s} :: lo <= j < SubtreeEnd(t, p) ==>
      (j in s <==> t.parent[j] == p && Accepts(test, t.data[j]))
  }

  /** Where the sibling chain goes from k: to the end of k's subtree, unless the parent's subtree ends there too. */
  lemma NextInChain(t: Tree, p: nat, k: nat)
    requires t.Valid() && 0 < k < t.Count() && t.parent[k] == p
    ensures k < k + t.size[k] && OnChain(t, p, k + t.size[k])
    ensures t.NextSibling(k) == if k + t.size[k] < SubtreeEnd(t, p) then k + t.size[k] else -1
    ensures forall j :: k < j < k + t.size[k] ==> t.parent[j] != p
  {
    if t.NextSibling(k) != -1 {
      t.NextIsSibling(k);
    }
    forall j | k < j < k + t.size[k]
      ensures t.parent[j] != p
    {
      if t.parent[j] == p {
        t.ParentIsInnermost(j, k);
      }
    }
  }

  /** One turn of the sibling loop: nothing of s lies between a child of p and the next one. */
  lemma SiblingTurn(t: Tree, p: nat, lo: nat, k: nat, s: set<nat>, test: NodeTest)
    requires t.Valid() && p < t.Count() && p < lo <= k < SubtreeEnd(t, p) && t.parent[k] == p
    requires AgreesOnChildren(t, s, test, p, lo)
    ensures Up(s, k + t.size[k]) == Up(s, k) + (if Accepts(test, t.data[k]) then [k] else [])
  {
    hide Tree.Nested;
    NextInChain(t, p, k);
    UpSkip(s, k + 1, k + t.size[k]);
  }

  /** The loop of the child and following-sibling axes. */
  method FillSiblings(ghost t: Tree, h: Heap, ghost p: nat, ghost lo: nat, ghost s: set<nat>, start: int,
                      test: NodeTest, once: bool)
    returns (out: seq<nat>, ghost k: nat)
    requires Linked(t, h) && p < |h| && p < lo && OnChain(t, p, lo)
    requires start == if lo < SubtreeEnd(t, p) then lo else NULL
    requires AgreesOnChildren(t, s, test, p, lo) && Up(s, lo) == []
    ensures k <= SubtreeEnd(t, p) && out == Up(s, k) && Finished(k, SubtreeEnd(t, p), once, out)
  {
    hide Tree.Nested, Tree.NextSibling, Tree.FirstChild, Up, Accepts, AgreesOnChildren;
    var c := start;
    out, k := [], lo;
    while c != NULL
      invariant lo <= k && OnChain(t, p, k)
      invariant c == if k < SubtreeEnd(t, p) then k else NULL
      invariant out == Up(s, k) && (once ==> out == [])
      decreases SubtreeEnd(t, p) - k
    {
      var pushed;
      out, pushed := StepPush(t, h, c, test, out);
      NextInChain(t, p, k);
      SiblingTurn(t, p, lo, k, s, test);
      k := k + t.size[k];
      if pushed && once {
        return;
      }
      c := h[c].nextSibling;
    }
  }

  lemma ChildrenAgree(t: Tree, test: NodeTest, i: nat, s: set<nat>)
    requires t.Valid() && i < t.Count() && s == Selected(t, Child, test, i)
    ensures OnChain(t, i, i + 1) && AgreesOnChildren(t, s, test, i, i + 1) && Up(s, i + 1) == []
    ensures forall j :: SubtreeEnd(t, i) <= j < t.Count() ==> j !in s
  {
    UpSkip(s, 0, i + 1);
    if t.FirstChild(i) != -1 {
      t.FirstChildIsChild(i);
    }
  }

  lemma FollowingSiblingsAgree(t: Tree, test: NodeTest, i: nat, s: set<nat>)
    requires t.Valid() && 0 < i < t.Count() && s == Selected(t, FollowingSibling, test, i)
    ensures AgreesOnChildren(t, s, test, t.parent[i], i + t.size[i]) && Up(s, i + t.size[i]) == []
    ensures forall j :: SubtreeEnd(t, t.parent[i]) <= j < t.Count() ==> j !in s
  {
    NextInChain(t, t.parent[i], i);
    FollowingSiblingsAre(t, test, i, s);
    hide Tree.Nested, Selected, Accepts;
    UpSkip(s, 0, i + t.size[i]);
    hide Up;
  }

  /** The following siblings lie behind the node's subtree and inside its parent's. */
  lemma FollowingSiblingsAre(t: Tree, test: NodeTest, i: nat, s: set<nat>)
    requires t.Valid() && 0 < i < t.Count() && s == Selected(t, FollowingSibling, test, i)
    ensures forall j :: j in s <==> i < j < t.Count() && t.parent[j] == t.parent[i] && Accepts(test, t.data[j])
    ensures forall j :: j in s ==> i + t.size[i] <= j < SubtreeEnd(t, t.parent[i])
  {
    hide Accepts;
    NextInChain(t, t.parent[i], i);
    forall j | j in s
      ensures i + t.size[i] <= j < SubtreeEnd(t, t.parent[i])
    {
      NextInChain(t, t.parent[i], j);
    }
  }

  method FillChildren(ghost t: Tree, h: Heap, n: nat, test: NodeTest, once: bool) returns (out: seq<nat>)
    requires Linked(t, h) && n < |h|
    ensures out == Taken(Listing(t, Child, test, n), once)
  {
    ghost var s := Selected(t, Child, test, n);
    ChildrenAgree(t, test, n, s);
    hide Tree.Nested, OnAxis, Selected, Up, Accepts, AgreesOnChildren;
    ghost var k;
    out, k := FillSiblings(t, h, n, n + 1, s, h[n].firstChild, test, once);
    UpTaken(out, s, k, n + t.size[n], t.Count(), once);
  }

  method FillFollowingSiblings(ghost t: Tree, h: Heap, n: nat, test: NodeTest, once: bool) returns (out: seq<nat>)
    requires Linked(t, h) && n < |h|
    ensures out == Taken(Listing(t, FollowingSibling, test, n), once)
  {
    ghost var s := Selected(t, FollowingSibling, test, n);
    if n == 0 {
      UpSkip(s, 0, t.Count());
      return [];
    }
    ghost var p := t.parent[n];
    FollowingSiblingsAgree(t, test, n, s);
    hide Tree.Nested, OnAxis, Selected, Up, Accepts, AgreesOnChildren;
    NextInChain(t, p, n);
    ghost var k;
    out, k := FillSiblings(t, h, p, n + t.size[n], s, h[n].nextSibling, test, once);
    UpTaken(out, s, k, SubtreeEnd(t, p), t.Count(), once);
  }

  /** k is n or an earlier sibling of it, and c is k's prev_sibling_c; the root has only itself. */
  ghost predicate PrevChain(t: Tree, n: nat, k: nat, c: int)
    requires t.Valid() && n < t.Count()
  {
    if n == 0 then k == 0 && c == 0 else t.parent[n] < k <= n && t.parent[k] == t.parent[n] && c == t.prev[k]
  }

  /** prev_sibling_c has no next sibling exactly when it wrapped around from the first sibling to the last one. */
  lemma PrevChainStep(t: Tree, n: nat, k: nat, c: int)
    requires t.Valid() && n < t.Count() && PrevChain(t, n, k, c)
    ensures 0 <= c < t.Count()
    ensures t.NextSibling(c) == -1 ==> k == if n == 0 then 0 else t.parent[n] + 1
    ensures t.NextSibling(c) != -1 ==>
      && n != 0 && 0 <= t.parent[n] < c < k <= n && t.parent[c] == t.parent[n] && c + t.size[c] == k
      && PrevChain(t, n, c, t.prev[c])
  {
  }

  /** A partial listing against document order is complete, or stopped at its first node. */
  lemma DownTaken(out: seq<nat>, s: set<nat>, k: nat, lo: nat, hi: nat, once: bool)
    requires lo <= k <= hi && out == Down(s, k, hi)
    requires forall j :: 0 <= j < lo ==> j !in s
    requires if once then |out| == 1 || (k == lo && out == []) else k == lo
    ensures out == Taken(Down(s, 0, hi), once)
  {
    DownPrefix(s, 0, k, hi);
    DownSkip(s, 0, lo, hi);
  }

  /** s is made of the earlier siblings of n that pass the test. */
  lemma PrecedingSiblingTurn(t: Tree, test: NodeTest, n: nat, s: set<nat>, c: nat, k: nat, out: seq<nat>,
                             out': seq<nat>)
    requires t.Valid() && 0 < n < t.Count() && s == Selected(t, PrecedingSibling, test, n)
    requires 0 < c < n && t.parent[c] == t.parent[n] && c + t.size[c] == k <= n && out == Down(s, k, t.Count())
    requires out' == if Accepts(test, t.data[c]) then out + [c] else out
    ensures out' == Down(s, c, t.Count())
  {
    hide Tree.Nested;
    NextInChain(t, t.parent[n], c);
    DownSkip(s, c + 1, k, t.Count());
  }

  lemma PrecedingSiblingsStart(t: Tree, test: NodeTest, n: nat, s: set<nat>)
    requires t.Valid() && n < t.Count() && s == Selected(t, PrecedingSibling, test, n)
    ensures Down(s, n, t.Count()) == []
    ensures forall j :: 0 <= j < t.parent[n] + 1 ==> j !in s
    ensures n == 0 ==> s == {}
  {
    DownSkip(s, n, t.Count(), t.Count());
  }

  lemma PrevChainStart(t: Tree, n: nat)
    requires t.Valid() && n < t.Count()
    ensures PrevChain(t, n, n, t.prev[n])
  {
  }

  method FillPrecedingSiblings(ghost t: Tree, h: Heap, n: nat, test: NodeTest, once: bool) returns (out: seq<nat>)
    requires Linked(t, h) && n < |h|
    ensures out == Taken(Listing(t, PrecedingSibling, test, n), once)
  {
    hide Tree.Nested, OnAxis, Selected, Accepts, Down, Tree.NextSibling, PrevChain;
    ghost var s, hi, k := Selected(t, PrecedingSibling, test, n), t.Count(), n;
    PrecedingSiblingsStart(t, test, n, s);
    PrevChainStart(t, n);
    out := [];
    var c := h[n].prevSiblingC;
    PrevChainStep(t, n, k, c);
    while h[c].nextSibling != NULL
      invariant 0 <= c < |h| && 0 <= k <= n && PrevChain(t, n, k, c)
      invariant out == Down(s, k, hi) && (once ==> out == [])
      decreases k
    {
      PrevChainStep(t, n, k, c);
      var pushed;
      ghost var before := out;
      out, pushed := StepPush(t, h, c, test, out);
      PrecedingSiblingTurn(t, test, n, s, c, k, before, out);
      k := c;
      if pushed && once {
        DownTaken(out, s, k, t.parent[n] + 1, hi, once);
        return;
      }
      c := h[c].prevSiblingC;
      PrevChainStep(t, n, k, c);
    }
    PrevChainStep(t, n, k, c);
    DownTaken(out, s, k, k, hi, once);
  }

  /** Between a node on n's chain of ancestors and its parent there is no ancestor of n. */
  lemma AncestorTurn(t: Tree, test: NodeTest, n: nat, orSelf: bool, s: set<nat>, k: nat, out: seq<nat>, out': seq<nat>)
    requires t.Valid() && n < t.Count() && 0 < k <= n < k + t.size[k]
    requires s == Selected(t, if orSelf then AncestorOrSelf else Ancestor, test, n) && out == Down(s, k, t.Count())
    requires out' == if Accepts(test, t.data[t.parent[k]]) then out + [t.parent[k]] else out
    ensures var p := t.parent[k]; 0 <= p < k && n < p + t.size[p] && out' == Down(s, p, t.Count())
  {
    hide Tree.Nested, Selected, OnAxis, Accepts;
    t.ParentEnds(k);
    NoneBetween(t, n, k);
    AreAncestors(t, test, n, orSelf, s);
    DownSkip(s, t.parent[k] + 1, k, t.Count());
  }

  lemma AreAncestors(t: Tree, test: NodeTest, n: nat, orSelf: bool, s: set<nat>)
    requires t.Valid() && n < t.Count()
    requires s == Selected(t, if orSelf then AncestorOrSelf else Ancestor, test, n)
    ensures forall j: nat :: j < n ==> (j in s <==> n < j + t.size[j] && Accepts(test, t.data[j]))
  {
    hide Tree.Nested, Accepts;
  }

  /** Nothing between a node and its parent is around what is in the node. */
  lemma NoneBetween(t: Tree, n: nat, k: nat)
    requires t.Valid() && n < t.Count() && 0 < k <= n
    ensures forall j :: t.parent[k] < j < k ==> j + t.size[j] <= n
  {
    hide Tree.Nested;
    forall j | t.parent[k] < j < k
      ensures j + t.size[j] <= n
    {
      t.ParentIsInnermost(k, j);
    }
  }

  lemma AncestorsStart(t: Tree, test: NodeTest, n: nat, orSelf: bool, s: set<nat>)
    requires t.Valid() && n < t.Count()
    requires s == Selected(t, if orSelf then AncestorOrSelf else Ancestor, test, n)
    ensures Down(s, n, t.Count()) == if orSelf && Accepts(test, t.data[n]) then [n] else []
  {
    DownSkip(s, n + 1, t.Count(), t.Count());
  }

  /** The loop of the ancestor axes. */
  method FillUpward(ghost t: Tree, h: Heap, n: nat, ghost orSelf: bool, ghost s: set<nat>, test: NodeTest, once: bool,
                    acc: seq<nat>)
    returns (out: seq<nat>)
    requires Linked(t, h) && n < |h| && s == Selected(t, if orSelf then AncestorOrSelf else Ancestor, test, n)
    requires acc == Down(s, n, t.Count()) && (once ==> acc == [])
    ensures out == Taken(Down(s, 0, t.Count()), once)
  {
    hide OnAxis, Selected, Accepts, Down, Tree.Nested, Tree.NextSibling, Tree.FirstChild;
    out := acc;
    var cur := h[n].parent;
    ghost var k := n;
    while cur != NULL
      invariant 0 <= k <= n < k + t.size[k] && cur == t.parent[k]
      invariant out == Down(s, k, t.Count()) && (once ==> out == [])
      decreases k
    {
      var pushed;
      ghost var before := out;
      out, pushed := StepPush(t, h, cur, test, out);
      AncestorTurn(t, test, n, orSelf, s, k, before, out);
      k := cur;
      if pushed && once {
        DownTaken(out, s, k, 0, t.Count(), once);
        return;
      }
      cur := h[cur].parent;
    }
    DownTaken(out, s, k, 0, t.Count(), once);
  }

  /** The ancestor and ancestor-or-self axes. */
  method FillAncestors(ghost t: Tree, h: Heap, n: nat, test: NodeTest, once: bool, orSelf: bool)
    returns (out: seq<nat>)
    requires Linked(t, h) && n < |h|
    ensures out == Taken(Listing(t, if orSelf then AncestorOrSelf else Ancestor, test, n), once)
  {
    ghost var s := Selected(t, if orSelf then AncestorOrSelf else Ancestor, test, n);
    AncestorsStart(t, test, n, orSelf, s);
    hide OnAxis, Selected, Accepts, Down, Tree.Nested, Tree.NextSibling, Tree.FirstChild;
    out := [];
    if orSelf {
      var pushed;
      out, pushed := StepPush(t, h, n, test, out);
      if pushed && once {
        DownTaken(out, s, n, 0, t.Count(), once);
        return;
      }
    }
    out := FillUpward(t, h, n, orSelf, s, test, once, out);
  }

  /** node_is_ancestor: climb from the node. */
  method NodeIsAncestor(ghost t: Tree, h: Heap, parent: nat, node: nat) returns (r: bool)
    requires Linked(t, h) && parent < |h| && node < |h|
    ensures r == (parent <= node < parent + t.size[parent])
  {
    var cur: int := node;
    while cur != NULL && cur != parent
      invariant NULL <= cur <= node && (cur != NULL ==> node < cur + t.size[cur])
      invariant parent <= node < parent + t.size[parent] ==> cur != NULL && parent <= cur < parent + t.size[parent]
      decreases cur
    {
      if parent < cur < parent + t.size[parent] {
        t.AncestorOfParent(parent, cur);
      }
      cur := h[cur].parent;
    }
    r := cur == parent;
  }

  lemma PrecedingTurn(t: Tree, test: NodeTest, n: nat, s: set<nat>, q: nat, hi: nat)
    requires t.Valid() && n < t.Count() && s == Selected(t, Preceding, test, n) && q < t.Count() && q < hi
    ensures Down(s, q, hi) == Down(s, q + 1, hi) + (if q + t.size[q] <= n && Accepts(test, t.data[q]) then [q] else [])
  {
  }

  lemma PrecedingStart(t: Tree, test: NodeTest, n: nat, s: set<nat>)
    requires t.Valid() && n < t.Count() && s == Selected(t, Preceding, test, n)
    ensures Down(s, n, t.Count()) == []
  {
    DownSkip(s, n, t.Count(), t.Count());
  }

  /**
   Going back from k: to the previous sibling, which ends where k starts; a first child comes right after its parent.
   */
  lemma BackStep(t: Tree, k: nat)
    requires t.Valid() && k < t.Count()
    ensures 0 <= t.prev[k] < t.Count()
    ensures t.NextSibling(t.prev[k]) == -1 ==> t.parent[k] == k - 1
    ensures t.NextSibling(t.prev[k]) != -1 ==> t.prev[k] < k && t.prev[k] + t.size[t.prev[k]] == k
  {
    PrevChainStep(t, k, k, t.prev[k]);
  }

  lemma LastChild(t: Tree, c: nat)
    requires t.Valid() && c < t.Count()
    ensures t.FirstChild(c) == -1 ==> t.size[c] == 1
    ensures t.FirstChild(c) != -1 ==>
      var last := t.prev[t.FirstChild(c)];
      t.FirstChild(c) == c + 1 < t.Count() && c < last < t.Count() && last + t.size[last] == c + t.size[c]
  {
    if t.FirstChild(c) != -1 {
      t.FirstChildIsChild(c);
    }
  }

  /** The preceding axis: back through the document, each subtree before its root, skipping the ancestors of n. */
  method FillPreceding(ghost t: Tree, h: Heap, n: nat, test: NodeTest, once: bool) returns (out: seq<nat>)
    requires Linked(t, h) && n < |h|
    ensures out == Taken(Listing(t, Preceding, test, n), once)
  {
    hide OnAxis, Selected, Accepts, Down, Tree.Nested, Tree.NextSibling, Tree.FirstChild;
    ghost var s, hi := Selected(t, Preceding, test, n), t.Count();
    PrecedingStart(t, test, n, s);
    out := [];
    var cur := n;
    BackStep(t, cur);
    while h[h[cur].prevSiblingC].nextSibling == NULL
      invariant 0 <= cur <= n < cur + t.size[cur] && 0 <= t.prev[cur] < |h| && Down(s, cur, hi) == []
      decreases cur
    {
      BackStep(t, cur);
      if h[cur].parent == NULL {
        DownTaken(out, s, 0, 0, hi, once);
        return;
      }
      t.ParentEnds(cur);
      PrecedingTurn(t, test, n, s, cur - 1, hi);
      cur := h[cur].parent;
      BackStep(t, cur);
    }
    BackStep(t, cur);
    cur := h[cur].prevSiblingC;
    out := FillBackward(t, h, n, cur, s, test, once);
  }

  /** The loop of the preceding axis, entered at the last subtree that ends by n. */
  method FillBackward(ghost t: Tree, h: Heap, n: nat, start: nat, ghost s: set<nat>, test: NodeTest, once: bool)
    returns (out: seq<nat>)
    requires Linked(t, h) && n < |h| && s == Selected(t, Preceding, test, n)
    requires start < |h| && start + t.size[start] <= n && Down(s, start + t.size[start], t.Count()) == []
    ensures out == Taken(Down(s, 0, t.Count()), once)
  {
    hide OnAxis, Selected, Accepts, Down, Tree.Nested, Tree.NextSibling, Tree.FirstChild;
    ghost var hi := t.Count();
    out := [];
    var cur := start;
    while true
      invariant 0 <= cur < |h| && cur < cur + t.size[cur] <= n
      invariant out == Down(s, cur + t.size[cur], hi) && (once ==> out == [])
      decreases cur + t.size[cur], n - cur
    {
      LastChild(t, cur);
      if h[cur].firstChild != NULL {
        cur := h[h[cur].firstChild].prevSiblingC;
      } else {
        var pushed;
        PrecedingTurn(t, test, n, s, cur, hi);
        out, pushed := StepPush(t, h, cur, test, out);
        if pushed && once {
          DownTaken(out, s, cur, 0, hi, once);
          return;
        }
        var done;
        cur, out, done := ClimbBackward(t, h, n, cur, s, test, once, out);
        if done {
          return;
        }
      }
    }
  }

  /** Up to the nearest node with a previous sibling, and to that sibling; on the way, what is no ancestor is pushed. */
  method ClimbBackward(ghost t: Tree, h: Heap, n: nat, from: nat, ghost s: set<nat>, test: NodeTest, once: bool,
                       acc: seq<nat>)
    returns (cur: int, out: seq<nat>, done: bool)
    requires Linked(t, h) && n < |h| && s == Selected(t, Preceding, test, n) && from < n
    requires acc == Down(s, from, t.Count()) && (once ==> acc == [])
    ensures done ==> out == Taken(Down(s, 0, t.Count()), once)
    ensures !done ==> 0 <= cur < |h| && cur < cur + t.size[cur] <= from
    ensures !done ==> out == Down(s, cur + t.size[cur], t.Count()) && (once ==> out == [])
  {
    hide OnAxis, Selected, Accepts, Down, Tree.Nested, Tree.NextSibling, Tree.FirstChild;
    ghost var hi := t.Count();
    cur, out, done := from, acc, true;
    BackStep(t, cur);
    while h[h[cur].prevSiblingC].nextSibling == NULL
      invariant 0 <= cur <= from && 0 <= t.prev[cur] < |h|
      invariant out == Down(s, cur, hi) && (once ==> out == [])
      decreases cur
    {
      BackStep(t, cur);
      cur := h[cur].parent;
      if cur == NULL {
        DownTaken(out, s, 0, 0, hi, once);
        return;
      }
      PrecedingTurn(t, test, n, s, cur, hi);
      var ancestor := NodeIsAncestor(t, h, cur, n);
      if !ancestor {
        var pushed;
        out, pushed := StepPush(t, h, cur, test, out);
        if pushed && once {
          DownTaken(out, s, cur, 0, hi, once);
          return;
        }
      }
      BackStep(t, cur);
    }
    BackStep(t, cur);
    cur, done := h[cur].prevSiblingC, false;
  }

  lemma UpOne(s: set<nat>, j: nat, hi: nat)
    requires j < hi && forall x :: x in s ==> x == j
    ensures Up(s, hi) == if j in s then [j] else []
  {
    UpSkip(s, 0, j);
    UpSkip(s, j + 1, hi);
  }

  /**
   step_fill from a node: whatever the axis, it pushes exactly the nodes that section 2.2 of XPath 1.0 and the node
   test select, once each, in the order of the axis; with `once`, the first of them.
   */
  method StepFill(ghost t: Tree, h: Heap, n: nat, axis: Axis, test: NodeTest, once: bool) returns (out: seq<nat>)
    requires Linked(t, h) && n < |h|
    ensures out == Taken(Listing(t, axis, test, n), once)
  {
    hide Tree.Nested, Listing, Accepts;
    match axis {
      case Child => out := FillChildren(t, h, n, test, once);
      case Descendant => out := FillDescendants(t, h, n, test, once, false);
      case DescendantOrSelf => out := FillDescendants(t, h, n, test, once, true);
      case FollowingSibling => out := FillFollowingSiblings(t, h, n, test, once);
      case PrecedingSibling => out := FillPrecedingSiblings(t, h, n, test, once);
      case Following => out := FillFollowing(t, h, n, test, once);
      case Preceding => out := FillPreceding(t, h, n, test, once);
      case Ancestor => out := FillAncestors(t, h, n, test, once, false);
      case AncestorOrSelf => out := FillAncestors(t, h, n, test, once, true);
      case Self =>
        SelfListing(t, n, test);
        var pushed;
        out, pushed := StepPush(t, h, n, test, []);
      case Parent =>
        ParentListing(t, n, test);
        out := [];
        if h[n].parent != NULL {
          var pushed;
          out, pushed := StepPush(t, h, h[n].parent, test, []);
        }
      case AttributeAxis =>
        NoListing(t, AttributeAxis, n, test);
        out := [];
      case Namespace =>
        NoListing(t, Namespace, n, test);
        out := [];
    }
  }

  lemma SelfListing(t: Tree, n: nat, test: NodeTest)
    requires t.Valid() && n < t.Count()
    ensures Listing(t, Self, test, n) == if Accepts(test, t.data[n]) then [n] else []
  {
    hide Tree.Nested, Accepts;
    UpOne(Selected(t, Self, test, n), n, t.Count());
  }

  lemma ParentListing(t: Tree, n: nat, test: NodeTest)
    requires t.Valid() && n < t.Count()
    ensures n > 0 ==> 0 <= t.parent[n] < n
    ensures Listing(t, Parent, test, n) ==
      if n > 0 && Accepts(test, t.data[t.parent[n]]) then [t.parent[n] as nat] else []
  {
    hide Tree.Nested, Accepts;
    if n > 0 {
      UpOne(Selected(t, Parent, test, n), t.parent[n], t.Count());
    } else {
      UpSkip(Selected(t, Parent, test, n), 0, t.Count());
    }
  }

  lemma NoListing(t: Tree, axis: Axis, n: nat, test: NodeTest)
    requires t.Valid() && n < t.Count() && (axis == AttributeAxis || axis == Namespace)
    ensures Listing(t, axis, test, n) == []
  {
    hide Tree.Nested, Accepts;
    UpSkip(Selected(t, axis, test, n), 0, t.Count());
  }
}
