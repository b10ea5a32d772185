/**
 The slow path of the document-order comparison: two climbs to a common parent,
 then a race along the sibling chain.
 */
module DocumentOrder {
  import opened XmlTree
  import opened Traversal

  /** Depth of a node, with null above the root. */
  ghost function Height(t: Tree, i: int): int
    requires t.Valid() && -1 <= i < t.Count()
  {
    if i < 0 then -1 else t.Depth(i)
  }

  /** a is i or an ancestor of i. */
  ghost predicate Encloses(t: Tree, a: int, i: nat)
    requires |t.size| == t.Count()
  {
    0 <= a <= i < t.Count() && i < a + t.size[a]
  }

  lemma EnclosedParent(t: Tree, a: nat, i: nat)
    requires t.Valid() && Encloses(t, a, i) && 0 < a
    ensures Encloses(t, t.parent[a], i)
  {
    t.ParentEnds(a);
  }

  /** Distinct siblings start disjoint subtrees, so what they enclose is in the order of the siblings. */
  lemma SiblingsSeparate(t: Tree, a: nat, b: nat, l: nat, r: nat)
    requires t.Valid() && 0 < a < t.Count() && 0 < b < t.Count() && a != b && t.parent[a] == t.parent[b]
    requires Encloses(t, a, l) && Encloses(t, b, r)
    ensures l < r <==> a < b
  {
    if a < b {
      t.ParentIsInnermost(b, a);
    } else {
      t.ParentIsInnermost(a, b);
    }
  }

  /** node_is_before_sibling: whichever chain meets the other node, or runs out, decides. */
  method NodeIsBeforeSibling(ghost t: Tree, h: Heap, ln: nat, rn: nat) returns (before: bool)
    requires Linked(t, h) && 0 < ln < |h| && 0 < rn < |h| && ln != rn && t.parent[ln] == t.parent[rn]
    ensures before == (ln < rn)
  {
    hide Tree.Nested, Tree.NextSibling, Tree.FirstChild;
    var ls: int, rs: int := ln, rn;
    while ls != NULL && rs != NULL
      invariant ls == NULL || (0 < ls < |h| && t.parent[ls] == t.parent[ln])
      invariant rs == NULL || (0 < rs < |h| && t.parent[rs] == t.parent[ln])
      invariant ln < rn ==> ls != NULL && ls <= rn && (rs == NULL || ls < rs)
      invariant ln > rn ==> rs != NULL && rs <= ln && (ls == NULL || rs < ls)
      decreases if ls == NULL then 0 else |h| - ls
    {
      if ls == rn {
        return true;
      }
      if rs == ln {
        return false;
      }
      SiblingAdvance(t, ls, rn);
      SiblingAdvance(t, ls, rs);
      SiblingAdvance(t, rs, ln);
      SiblingAdvance(t, rs, ls);
      ls := h[ls].nextSibling;
      rs := h[rs].nextSibling;
    }
    before := rs == NULL;
  }

  /** The next sibling of a, and that it does not overshoot any later sibling b. */
  lemma SiblingAdvance(t: Tree, a: nat, b: nat)
    requires t.Valid() && 0 < a < t.Count()
    ensures t.NextSibling(a) != -1 ==> a < t.NextSibling(a) < t.Count() && t.parent[t.NextSibling(a)] == t.parent[a]
    ensures a < b < t.Count() && t.parent[b] == t.parent[a] ==> t.NextSibling(a) != -1 && t.NextSibling(a) <= b
  {
    if t.NextSibling(a) != -1 {
      t.NextIsSibling(a);
    }
    if a < b < t.Count() && t.parent[b] == t.parent[a] {
      t.SiblingStep(a, b);
    }
  }

  /** Climbing one step from a node above the root. */
  lemma Climb(t: Tree, a: nat, i: nat)
    requires t.Valid() && Encloses(t, a, i)
    ensures -1 <= t.parent[a] < a && Height(t, t.parent[a]) == Height(t, a) - 1
    ensures 0 <= t.parent[a] ==> Encloses(t, t.parent[a], i)
    ensures t.parent[a] == -1 <==> a == 0
  {
    if a != 0 {
      EnclosedParent(t, a, i);
    }
  }

  /** node_is_before: for distinct nodes of one document, at any depths, it is document order. */
  method NodeIsBefore(ghost t: Tree, h: Heap, left: nat, right: nat) returns (before: bool)
    requires Linked(t, h) && left < |h| && right < |h| && left != right
    ensures before == (left < right)
  {
    hide Tree.Nested, Tree.NextSibling, Tree.FirstChild, Height;
    var ln, rn := left, right;
    var lp: int, rp: int := ln, rn;
    while lp != NULL && rp != NULL && h[lp].parent != h[rp].parent
      invariant lp == NULL || Encloses(t, lp, left)
      invariant rp == NULL || Encloses(t, rp, right)
      invariant lp != rp && Height(t, left) - Height(t, lp) == Height(t, right) - Height(t, rp)
      decreases lp
    {
      Climb(t, lp, left);
      Climb(t, rp, right);
      lp, rp := h[lp].parent, h[rp].parent;
    }
    if lp != NULL && rp != NULL {
      Climb(t, lp, left);
      Climb(t, rp, right);
      SiblingsSeparate(t, lp, rp, left, right);
      before := NodeIsBeforeSibling(t, h, lp, rp);
      return;
    }
    var leftHigher := lp == NULL;
    HeightFacts(t);
    ghost var d := Height(t, left) - Height(t, lp);
    while lp != NULL
      invariant -1 <= lp < |h| && Encloses(t, ln, left) && Height(t, ln) - Height(t, lp) == d
      invariant leftHigher ==> ln == left
      decreases lp
    {
      Climb(t, lp, lp);
      Climb(t, ln, left);
      lp, ln := h[lp].parent, h[ln].parent;
    }
    while rp != NULL
      invariant -1 <= rp < |h| && Encloses(t, rn, right) && Height(t, rn) - Height(t, rp) == d
      invariant !leftHigher ==> rn == right
      decreases rp
    {
      Climb(t, rp, rp);
      Climb(t, rn, right);
      rp, rn := h[rp].parent, h[rn].parent;
    }
    if ln == rn {
      return leftHigher;
    }
    while h[ln].parent != h[rn].parent
      invariant Encloses(t, ln, left) && Encloses(t, rn, right) && ln != rn && Height(t, ln) == Height(t, rn)
      decreases ln
    {
      Climb(t, ln, left);
      Climb(t, rn, right);
      ln, rn := h[ln].parent, h[rn].parent;
    }
    Climb(t, ln, left);
    Climb(t, rn, right);
    SiblingsSeparate(t, ln, rn, left, right);
    before := NodeIsBeforeSibling(t, h, ln, rn);
  }

  lemma HeightFacts(t: Tree)
    requires t.Valid()
    ensures Height(t, -1) == -1
    ensures forall i {:trigger Height(t, i)} :: 0 <= i < t.Count() ==>
      Height(t, i) >= 0 && (Height(t, i) == 0 <==> i == 0)
  {
  }
}
