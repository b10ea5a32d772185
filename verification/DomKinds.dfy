/**
 Which kinds of nodes may be children of which: exactly the insertions and moves that are allowed keep a document one
 that can be written.
 */
module DomKinds {

  import opened XmlTree
  import opened DomLinks
  import opened DomTree

  /** Only the document and elements have children, no document is below another node, and its prolog is at the top. */
  ghost predicate KindsFit(t: Family) {
    forall c :: c in t.up ==>
      && t.up[c].kind in {KDocument, KElement}
      && c.kind != KDocument
      && (c.kind in {KDeclaration, KDoctype} ==> t.up[c].kind == KDocument)
  }

  /** A move keeps that so exactly if it is allowed. */
  lemma MoveDecided(t: Family, m: Node, p: Node, i: nat)
    requires IsTree(t) && KindsFit(t) && m in t.up && p in t.kids && i <= |Without(t.kids, t.up[m], m)[p]|
    ensures KindsFit(Moved(t, m, p, i)) <==> AllowInsertChild(p, m.kind)
  {
    hide IsTree, Without, With;
    var t' := Moved(t, m, p, i);
    assert t'.up == t.up[m := p];
    if AllowInsertChild(p, m.kind) {
      forall c | c in t'.up
        ensures c == m || (c in t.up && t'.up[c] == t.up[c])
      {
      }
    } else {
      assert m in t'.up && t'.up[m] == p;
    }
  }

  /** A new child keeps it so exactly if its kind is allowed there. */
  lemma AddDecided(t: Family, n: Node, p: Node, i: nat)
    requires KindsFit(t) && n !in t.kids && p in t.kids && p in t.depth && i <= |t.kids[p]|
    ensures KindsFit(Added(t, n, p, i)) <==> AllowInsertChild(p, n.kind)
  {
    hide With;
    var t' := Added(t, n, p, i);
    assert t'.up == t.up[n := p];
    if AllowInsertChild(p, n.kind) {
      forall c | c in t'.up
        ensures c == n || (c in t.up && t'.up[c] == t.up[c])
      {
      }
    } else {
      assert n in t'.up && t'.up[n] == p;
    }
  }

  /** Taking a subtree out keeps it so. */
  lemma PruneKeepsKinds(t: Family, m: Node)
    requires IsTree(t) && KindsFit(t) && m in t.up
    ensures KindsFit(Pruned(t, m))
  {
    hide IsTree, Under, Without;
    var t' := Pruned(t, m);
    forall c | c in t'.up
      ensures c in t.up && t'.up[c] == t.up[c]
    {
    }
  }
}
