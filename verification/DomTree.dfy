/**
 The document's tree on top of the links: insertion of new nodes, guarded moves of subtrees, and removal.
 */
module DomTree {

  import opened Common
  import opened XmlTree
  import opened DomLinks

  /** The children and the parent of every node of a document, and how far below the root it is. */
  datatype Family = Family(root: Node, kids: Children, up: map<Node, Node>, depth: map<Node, nat>)

  /** Every node but the root is a child of its parent, once, and of no other node. */
  ghost predicate IsFamily(t: Family) {
    && t.root in t.kids && t.root !in t.up
    && (forall n :: n in t.up ==> n in t.kids) && (forall n :: n in t.kids && n != t.root ==> n in t.up)
    && Closed(t.kids)
    && (forall n :: n in t.kids ==> Distinct(t.kids[n]))
    && (forall n, i :: n in t.kids && 0 <= i < |t.kids[n]| ==> t.kids[n][i] in t.up && t.up[t.kids[n][i]] == n)
    && (forall n {:trigger t.up[n]} :: n in t.up ==> t.up[n] in t.kids && n in t.kids[t.up[n]])
  }

  /** Every node but the root is one deeper than its parent. */
  ghost predicate IsGraded(t: Family) {
    && (forall n :: n in t.kids ==> n in t.depth)
    && forall n {:trigger t.up[n]} :: n in t.up ==>
          t.up[n] in t.kids && n in t.kids && t.depth[n] == t.depth[t.up[n]] + 1
  }

  ghost predicate IsTree(t: Family) {
    IsFamily(t) && IsGraded(t)
  }

  /** Whether n is a or is below a. */
  ghost predicate Under(t: Family, n: Node, a: Node)
    requires IsTree(t) && n in t.kids
    decreases t.depth[n]
  {
    n == a || (n in t.up && Under(t, t.up[n], a))
  }

  lemma {:induction false} UnderIsDeeper(t: Family, n: Node, a: Node)
    requires IsTree(t) && n in t.kids && a in t.kids && Under(t, n, a)
    ensures t.depth[n] >= t.depth[a]
    decreases t.depth[n]
  {
    if n != a {
      UnderIsDeeper(t, t.up[n], a);
    }
  }

  lemma {:induction false} UnderRoot(t: Family, n: Node)
    requires IsTree(t) && n in t.kids
    ensures Under(t, n, t.root)
    decreases t.depth[n]
  {
    if n != t.root {
      UnderRoot(t, t.up[n]);
    }
  }

  /** The place of a node in a list that has it. */
  ghost function Place(s: seq<Node>, n: Node): (i: nat)
    requires n in s
    ensures i < |s| && s[i] == n
  {
    var i :| 0 <= i < |s| && s[i] == n;
    i
  }

  ghost function Without(f: Children, p: Node, n: Node): (g: Children)
    requires p in f && n in f[p]
    ensures g.Keys == f.Keys
  {
    f[p := Removed(f[p], Place(f[p], n))]
  }

  ghost function With(f: Children, p: Node, i: nat, n: Node): (g: Children)
    requires p in f && i <= |f[p]|
    ensures p in g
  {
    f[p := Inserted(f[p], i, n)]
  }

  // Moving a subtree

  /** The tree after the subtree of m moved to place i among the children of p, counted without m. */
  ghost function Moved(t: Family, m: Node, p: Node, i: nat): (t': Family)
    requires IsTree(t) && m in t.up && p in t.kids && i <= |Without(t.kids, t.up[m], m)[p]|
  {
    Family(
      t.root,
      With(Without(t.kids, t.up[m], m), p, i, m),
      t.up[m := p],
      map n | n in t.kids :: if Under(t, n, m) && t.depth[n] >= t.depth[m]
                             then t.depth[n] - t.depth[m] + t.depth[p] + 1 else t.depth[n])
  }

  /** The children of n after m, and only m, moved to p. */
  ghost predicate MemberMoved(before: seq<Node>, after: seq<Node>, n: Node, m: Node, p: Node) {
    && Distinct(after)
    && (forall c :: c in after ==> if c == m then n == p else c in before)
    && (forall c :: c in before && c != m ==> c in after)
    && (n == p ==> m in after)
  }

  ghost predicate MembersMoved(f: Children, g: Children, m: Node, p: Node) {
    g.Keys == f.Keys && forall n :: n in f ==> MemberMoved(f[n], g[n], n, m, p)
  }

  lemma WithoutMembers(f: Children, q: Node, m: Node, n: Node)
    requires q in f && m in f[q] && n in f && Distinct(f[n]) && Distinct(f[q]) && (m in f[n] ==> n == q)
    ensures Distinct(Without(f, q, m)[n]) && m !in Without(f, q, m)[n]
    ensures forall c :: c in Without(f, q, m)[n] <==> c in f[n] && c != m
  {
    RemovedMembers(f[q], Place(f[q], m));
    RemovedDistinct(f[q], Place(f[q], m));
    hide Removed, Distinct;
  }

  lemma WithMembers(f: Children, p: Node, i: nat, m: Node, n: Node)
    requires p in f && i <= |f[p]| && n in f && Distinct(f[n]) && m !in f[n]
    ensures Distinct(With(f, p, i, m)[n])
    ensures forall c :: c in With(f, p, i, m)[n] <==> c in f[n] || (c == m && n == p)
  {
    if n == p {
      SpliceMembers(f[p], i, m);
      StillDistinct(f[p], i, m);
    }
    hide Inserted, Distinct;
  }

  lemma MoveMembers(t: Family, m: Node, p: Node, i: nat, n: Node)
    requires IsTree(t) && m in t.up && p in t.kids && i <= |Without(t.kids, t.up[m], m)[p]| && n in t.kids
    ensures
      var g := Moved(t, m, p, i).kids;
      g.Keys == t.kids.Keys && MemberMoved(t.kids[n], g[n], n, m, p)
  {
    hide IsTree, Moved, Distinct, Under, With, Without, MemberMoved;
    var q := t.up[m];
    ListsOf(t, m, n);
    MovedKids(t, m, p, i);
    WithoutMembers(t.kids, q, m, n);
    WithMembers(Without(t.kids, q, m), p, i, m, n);
    MemberChange(t.kids[n], Without(t.kids, q, m)[n], Moved(t, m, p, i).kids[n], n, m, p);
  }

  lemma ListsOf(t: Family, m: Node, n: Node)
    requires IsTree(t) && m in t.up && n in t.kids
    ensures m in t.kids && t.up[m] in t.kids && m in t.kids[t.up[m]] && (m in t.kids[n] ==> n == t.up[m])
    ensures Distinct(t.kids[n]) && Distinct(t.kids[t.up[m]])
  {
    if m in t.kids[n] {
      UpOfChild(t, n, m);
    }
    hide IsGraded, Distinct;
  }

  lemma MovedKids(t: Family, m: Node, p: Node, i: nat)
    requires IsTree(t) && m in t.up && p in t.kids && i <= |Without(t.kids, t.up[m], m)[p]|
    ensures t.up[m] in t.kids && m in t.kids[t.up[m]]
    ensures Moved(t, m, p, i).kids == With(Without(t.kids, t.up[m], m), p, i, m)
    ensures Moved(t, m, p, i).kids.Keys == t.kids.Keys
  {
  }

  lemma MemberChange(before: seq<Node>, between: seq<Node>, after: seq<Node>, n: Node, m: Node, p: Node)
    requires Distinct(after)
    requires forall c :: c in between <==> c in before && c != m
    requires forall c :: c in after <==> c in between || (c == m && n == p)
    ensures MemberMoved(before, after, n, m, p)
  {
    hide Distinct;
  }

  lemma UpOfChild(t: Family, n: Node, c: Node)
    requires IsFamily(t) && n in t.kids && c in t.kids[n]
    ensures c in t.kids && c in t.up && t.up[c] == n
  {
    var i :| 0 <= i < |t.kids[n]| && t.kids[n][i] == c;
  }

  lemma MovedChild(t: Family, g: Children, m: Node, p: Node, n: Node, i: nat)
    requires IsFamily(t) && m in t.up && p in t.kids && MembersMoved(t.kids, g, m, p) && n in g && i < |g[n]|
    ensures g[n][i] in g && g[n][i] in t.up && t.up[m := p][g[n][i]] == n
  {
    var c := g[n][i];
    assert c in g[n];
    if c != m {
      UpOfChild(t, n, c);
    } else {
      UpOfChild(t, t.up[m], m);
    }
    hide IsFamily;
  }

  lemma MovedIsFamily(t: Family, t': Family, m: Node, p: Node)
    requires IsFamily(t) && m in t.up && p in t.kids
    requires MembersMoved(t.kids, t'.kids, m, p)
    requires t'.root == t.root && t'.up == t.up[m := p]
    ensures IsFamily(t')
  {
    assert t'.up.Keys == t.up.Keys;
    forall n, i | n in t'.kids && 0 <= i < |t'.kids[n]|
      ensures t'.kids[n][i] in t'.kids && t'.kids[n][i] in t'.up && t'.up[t'.kids[n][i]] == n
    {
      hide IsFamily;
      MovedChild(t, t'.kids, m, p, n, i);
    }
    hide Distinct;
  }

  lemma MoveAllMembers(t: Family, m: Node, p: Node, i: nat)
    requires IsTree(t) && m in t.up && p in t.kids && i <= |Without(t.kids, t.up[m], m)[p]|
    ensures MembersMoved(t.kids, Moved(t, m, p, i).kids, m, p)
  {
    var g := Moved(t, m, p, i).kids;
    hide Moved, Without, MemberMoved;
    forall n | n in t.kids
      ensures g.Keys == t.kids.Keys && MemberMoved(t.kids[n], g[n], n, m, p)
    {
      MoveMembers(t, m, p, i, n);
    }
    MoveMembers(t, m, p, i, m);
  }

  /** When p is not below m, moving m there gives a tree again, of the same nodes. */
  lemma MoveKeepsTree(t: Family, m: Node, p: Node, i: nat)
    requires IsTree(t) && m in t.up && p in t.kids && i <= |Without(t.kids, t.up[m], m)[p]|
    requires !Under(t, p, m)
    ensures IsTree(Moved(t, m, p, i))
    ensures Moved(t, m, p, i).kids.Keys == t.kids.Keys
  {
    var t' := Moved(t, m, p, i);
    assert t'.up == t.up[m := p] && t'.root == t.root;
    hide Moved, Without, IsFamily, IsGraded;
    MoveDepths(t, m, p, i);
    MoveAllMembers(t, m, p, i);
    MovedIsFamily(t, t', m, p);
  }

  lemma MoveDepths(t: Family, m: Node, p: Node, i: nat)
    requires IsTree(t) && m in t.up && p in t.kids && i <= |Without(t.kids, t.up[m], m)[p]|
    requires !Under(t, p, m)
    ensures IsGraded(Moved(t, m, p, i))
  {
    var t' := Moved(t, m, p, i);
    assert t'.kids.Keys == t.kids.Keys && t'.up == t.up[m := p];
    forall n | n in t'.up
      ensures t'.up[n] in t'.kids && n in t'.kids && t'.depth[n] == t'.depth[t'.up[n]] + 1
    {
      if Under(t, n, m) {
        UnderIsDeeper(t, n, m);
        if n != m {
          UnderIsDeeper(t, t.up[n], m);
        }
      }
    }
  }

  /** There is no tree in which m hangs below a node of its own subtree. */
  lemma MoveWouldLoop(t: Family, m: Node, p: Node, t': Family)
    requires IsTree(t) && m in t.up && p in t.kids && Under(t, p, m)
    requires t'.kids.Keys == t.kids.Keys && t'.up == t.up[m := p]
    ensures !IsTree(t')
  {
    if IsTree(t') {
      StillUnder(t, m, p, t', p);
      UnderIsDeeper(t', p, m);
    }
  }

  lemma {:induction false} StillUnder(t: Family, m: Node, p: Node, t': Family, n: Node)
    requires IsTree(t) && IsTree(t') && m in t.up && n in t.kids && Under(t, n, m)
    requires t'.kids.Keys == t.kids.Keys && t'.up == t.up[m := p]
    ensures Under(t', n, m)
    decreases t.depth[n]
  {
    if n != m {
      StillUnder(t, m, p, t', t.up[n]);
    }
  }

  // New nodes and removed nodes

  /** The tree with a new node at place i among the children of p. */
  ghost function Added(t: Family, n: Node, p: Node, i: nat): Family
    requires n !in t.kids && p in t.kids && p in t.depth && i <= |t.kids[p]|
  {
    Family(t.root, With(t.kids[n := []], p, i, n), t.up[n := p], t.depth[n := t.depth[p] + 1])
  }

  /** The tree without the subtree of m. */
  ghost function Pruned(t: Family, m: Node): Family
    requires IsTree(t) && m in t.up
  {
    var f := Without(t.kids, t.up[m], m);
    Family(t.root,
           map n | n in t.kids && !Under(t, n, m) :: f[n],
           map n | n in t.up && !Under(t, n, m) :: t.up[n],
           map n | n in t.kids && !Under(t, n, m) :: t.depth[n])
  }

  lemma AddedChild(t: Family, n: Node, p: Node, i: nat, a: Node, k: nat)
    requires IsFamily(t) && n !in t.kids && p in t.kids && p in t.depth && i <= |t.kids[p]|
    requires var g := Added(t, n, p, i).kids; a in g && k < |g[a]|
    ensures var t' := Added(t, n, p, i); var c := t'.kids[a][k]; c in t'.kids && c in t'.up && t'.up[c] == a
  {
    if a == p {
      InsertedAt(t.kids[p], i, n, k);
    }
    hide Inserted, Distinct;
    var c := Added(t, n, p, i).kids[a][k];
    if c != n {
      assert c in t.kids[a];
      UpOfChild(t, a, c);
    }
  }

  lemma AddKeepsTree(t: Family, n: Node, p: Node, i: nat)
    requires IsTree(t) && n !in t.kids && p in t.kids && i <= |t.kids[p]|
    ensures p in t.depth && IsTree(Added(t, n, p, i))
  {
    AddedIsFamily(t, n, p, i);
    AddedIsGraded(t, n, p, i);
    hide IsFamily, IsGraded;
  }

  lemma AddedIsGraded(t: Family, n: Node, p: Node, i: nat)
    requires IsTree(t) && n !in t.kids && p in t.kids && i <= |t.kids[p]|
    ensures IsGraded(Added(t, n, p, i))
  {
    var t' := Added(t, n, p, i);
    assert t'.kids.Keys == t.kids.Keys + {n};
    hide Inserted;
  }

  lemma AddedParent(t: Family, n: Node, p: Node, i: nat, c: Node)
    requires IsFamily(t) && n !in t.kids && p in t.kids && p in t.depth && i <= |t.kids[p]|
    requires c in Added(t, n, p, i).up
    ensures var t' := Added(t, n, p, i); t'.up[c] in t'.kids && c in t'.kids[t'.up[c]]
  {
    SpliceMembers(t.kids[p], i, n);
    hide Inserted, Distinct;
  }

  lemma FamilyFrom(t: Family)
    requires t.root in t.kids && t.root !in t.up
    requires (forall n :: n in t.up ==> n in t.kids) && (forall n :: n in t.kids && n != t.root ==> n in t.up)
    requires forall n :: n in t.kids ==> Distinct(t.kids[n])
    requires forall a, k :: a in t.kids && 0 <= k < |t.kids[a]| ==>
      var c := t.kids[a][k]; c in t.kids && c in t.up && t.up[c] == a
    requires forall c {:trigger t.up[c]} :: c in t.up ==> t.up[c] in t.kids && c in t.kids[t.up[c]]
    ensures IsFamily(t)
  {
    hide Distinct;
  }

  lemma AddedLists(t: Family, n: Node, p: Node, i: nat)
    requires IsTree(t) && n !in t.kids && p in t.kids && i <= |t.kids[p]|
    ensures
      var t' := Added(t, n, p, i);
      && t'.root in t'.kids && t'.root !in t'.up
      && (forall m :: m in t'.up ==> m in t'.kids) && (forall m :: m in t'.kids && m != t'.root ==> m in t'.up)
      && forall m :: m in t'.kids ==> Distinct(t'.kids[m])
  {
    if n in t.kids[p] {
      UpOfChild(t, p, n);
    }
    StillDistinct(t.kids[p], i, n);
    hide Distinct, IsGraded, Inserted;
  }

  lemma AddedIsFamily(t: Family, n: Node, p: Node, i: nat)
    requires IsTree(t) && n !in t.kids && p in t.kids && i <= |t.kids[p]|
    ensures IsFamily(Added(t, n, p, i))
  {
    hide IsFamily, IsGraded, Distinct, Inserted;
    AddKeys(t, p);
    var t' := Added(t, n, p, i);
    AddedLists(t, n, p, i);
    hide Added;
    forall c | c in t'.up
      ensures t'.up[c] in t'.kids && c in t'.kids[t'.up[c]]
    {
      AddedParent(t, n, p, i, c);
    }
    forall a, k | a in t'.kids && 0 <= k < |t'.kids[a]|
      ensures var c := t'.kids[a][k]; c in t'.kids && c in t'.up && t'.up[c] == a
    {
      AddedChild(t, n, p, i, a, k);
    }
    FamilyFrom(t');
  }

  lemma AddKeys(t: Family, p: Node)
    requires IsTree(t) && p in t.kids
    ensures p in t.depth
  {
  }

  lemma PrunedChild(t: Family, m: Node, a: Node, k: nat)
    requires IsTree(t) && m in t.up
    requires var g := Pruned(t, m).kids; a in g && k < |g[a]|
    ensures var t' := Pruned(t, m); var c := t'.kids[a][k]; c in t'.kids && c in t'.up && t'.up[c] == a
  {
    var q := t.up[m];
    var j := Place(t.kids[q], m);
    var c := Without(t.kids, q, m)[a][k];
    if a == q {
      RemovedAt(t.kids[q], j, k);
      Different(t.kids[q], if k < j then k else k + 1, j);
    }
    hide Removed, Distinct;
    assert c in t.kids[a] && (c == m ==> a == q) by {
      if c == m { UpOfChild(t, a, c); }
    }
    UpOfChild(t, a, c);
  }

  lemma PrunedParent(t: Family, m: Node, c: Node)
    requires IsTree(t) && m in t.up && c in Pruned(t, m).up
    ensures var t' := Pruned(t, m); t'.up[c] in t'.kids && c in t'.kids && c in t'.kids[t'.up[c]]
  {
    var q := t.up[m];
    RemovedMembers(t.kids[q], Place(t.kids[q], m));
    hide Removed, Distinct;
  }

  lemma PruneKeepsTree(t: Family, m: Node)
    requires IsTree(t) && m in t.up
    ensures IsTree(Pruned(t, m))
  {
    PrunedIsFamily(t, m);
    PrunedIsGraded(t, m);
    hide IsFamily, IsGraded, Pruned;
  }

  lemma PrunedIsGraded(t: Family, m: Node)
    requires IsTree(t) && m in t.up
    ensures IsGraded(Pruned(t, m))
  {
    var t' := Pruned(t, m);
    hide Without;
    forall c | c in t'.up
      ensures t'.up[c] in t'.kids && c in t'.kids && t'.depth[c] == t'.depth[t'.up[c]] + 1
    {
      assert !Under(t, c, m);
    }
  }

  lemma PrunedIsFamily(t: Family, m: Node)
    requires IsTree(t) && m in t.up
    ensures IsFamily(Pruned(t, m))
  {
    hide IsGraded, Under, Distinct, Removed, Without;
    var t', q := Pruned(t, m), t.up[m];
    PrunedLists(t, m);
    hide IsFamily, Pruned;
    forall a, k | a in t'.kids && 0 <= k < |t'.kids[a]|
      ensures var c := t'.kids[a][k]; c in t'.kids && c in t'.up && t'.up[c] == a
    {
      PrunedChild(t, m, a, k);
    }
    forall c | c in t'.up
      ensures t'.up[c] in t'.kids && c in t'.kids && c in t'.kids[t'.up[c]]
    {
      PrunedParent(t, m, c);
    }
    FamilyFrom(t');
  }

  lemma PrunedLists(t: Family, m: Node)
    requires IsTree(t) && m in t.up
    ensures
      var t' := Pruned(t, m);
      && t'.root in t'.kids && t'.root !in t'.up
      && (forall n :: n in t'.up ==> n in t'.kids) && (forall n :: n in t'.kids && n != t'.root ==> n in t'.up)
      && forall n :: n in t'.kids ==> Distinct(t'.kids[n])
  {
    var q := t.up[m];
    RemovedDistinct(t.kids[q], Place(t.kids[q], m));
    assert !Under(t, t.root, m);
    hide IsGraded, Under, Distinct, Removed;
  }

  // The document

  /** Whether a node of the kind may be a child of the parent. */
  predicate AllowInsertChild(parent: Node?, child: Kind) {
    && parent != null && (parent.kind == KDocument || parent.kind == KElement)
    && child != KDocument
    && (parent.kind == KDocument || (child != KDeclaration && child != KDoctype))
  }

  /** The parent links say what the tree says. */
  lemma ParentLinks(h: Links, t: Family, n: Node)
    requires IsTree(t) && Linked(h, t.kids) && n in t.kids
    ensures h.Over(t.kids.Keys)
    ensures h.parent[n] == if n in t.up then t.up[n] else null
  {
    if n in t.up {
      OnlyParent(h, t.kids, t.up[n], n);
    } else if h.parent[n] != null {
      UpOfChild(t, h.parent[n], n);
    }
  }

  /** A child of the document can be moved below a node that is not in its own subtree. */
  ghost predicate Movable(t: Family, parent: Node?, child: Node?) {
    && IsTree(t) && parent != null && parent in t.kids && child != null && child in t.up
    && AllowInsertChild(parent, child.kind) && !Under(t, parent, child)
  }

  /** Nodes of one document, of which only the root is a document node. */
  ghost predicate Owned(nodes: set<Node>, root: Node) {
    root.kind == KDocument && forall n :: n in nodes ==> n.document == root && (n.kind == KDocument ==> n == root)
  }

  /** A document: its tree, and the links that make it. */
  datatype Document = Document(tree: Family, links: Links)

  /** The links in the heap are those of the document's tree. */
  ghost predicate Valid(d: Document)
    reads d.tree.kids.Keys
  {
    && IsTree(d.tree)
    && Linked(d.links, d.tree.kids) && d.links.Over(d.tree.kids.Keys) && Are(d.tree.kids.Keys, d.links)
    && Owned(d.tree.kids.Keys, d.tree.root)
  }

  /** A node handle that has not been destroyed: null, of this document, or of another one. */
  ghost predicate Live(t: Family, n: Node?) {
    n != null && n.document == t.root ==> n in t.kids
  }

  /** A handle of this document or null. */
  ghost predicate Ours(t: Family, n: Node?) {
    n != null ==> n in t.kids
  }

  method NewDocument() returns (root: Node, ghost d: Document)
    ensures fresh(root) && d.tree.root == root && d.tree.kids == map[root := []] && Valid(d)
  {
    root := new Node.Root();
    d := Document(
      Family(root, map[root := []], map[], map[root := 0]),
      Links(map[root := null], map[root := null], map[root := root], map[root := null]));
  }

  lemma ValidParts(d: Document)
    requires Valid(d)
    ensures IsTree(d.tree) && Linked(d.links, d.tree.kids) && d.links.Over(d.tree.kids.Keys)
    ensures Are(d.tree.kids.Keys, d.links) && Owned(d.tree.kids.Keys, d.tree.root)
  {
  }

  method AllowMove(parent: Node?, child: Node?, ghost d: Document) returns (ok: bool)
    requires Valid(d) && Ours(d.tree, parent) && Live(d.tree, child)
    ensures ok <==> Movable(d.tree, parent, child)
  {
    if child == null || !AllowInsertChild(parent, child.kind) {
      return false;
    }
    if parent.document != child.document {
      return false;
    }
    ghost var t := d.tree;
    var cur: Node? := parent;
    while cur != null
      invariant cur != null ==> cur in t.kids && (Under(t, parent, child) <==> Under(t, cur, child))
      invariant cur == null ==> !Under(t, parent, child)
      decreases if cur == null then 0 else t.depth[cur] + 1
    {
      if cur == child {
        return false;
      }
      ParentLinks(d.links, t, cur);
      cur := cur.parent;
    }
    return true;
  }

  /** The children of p once m is taken out of its own list. */
  ghost function Others(t: Family, m: Node, p: Node): seq<Node>
    requires IsTree(t) && m in t.up && p in t.kids
  {
    Without(t.kids, t.up[m], m)[p]
  }

  /** The place of n among the other children of its parent. */
  ghost function Beside(t: Family, m: Node, p: Node, n: Node): (i: nat)
    requires IsTree(t) && m in t.up && n in t.up && t.up[n] == p && n != m
    ensures p in t.kids && i < |Others(t, m, p)| && Others(t, m, p)[i] == n
  {
    RemovedMembers(t.kids[t.up[m]], Place(t.kids[t.up[m]], m));
    Place(Others(t, m, p), n)
  }

  /** Links in which m has been taken out of the tree. */
  ghost predicate Detached(t: Family, m: Node, h: Links) {
    && IsTree(t) && m in t.up && m in t.kids && h.Over(t.kids.Keys) && h.parent[m] == null
    && Linked(h, Without(t.kids, t.up[m], m))
  }

  method Detach(m: Node, ghost d: Document) returns (ghost h: Links)
    requires Valid(d) && m in d.tree.up
    modifies d.tree.kids.Keys
    ensures Detached(d.tree, m, h) && h.Over(d.tree.kids.Keys) && Are(d.tree.kids.Keys, h)
  {
    ghost var q := d.tree.up[m];
    h := RemoveNode(m, d.tree.kids, d.links, q, Place(d.tree.kids[q], m));
    hide Linked, Are, Removed, Valid, Owned, IsFamily, IsGraded;
  }

  lemma Reattached(d: Document, m: Node, p: Node, i: nat, h: Links)
    requires Movable(d.tree, p, m) && Owned(d.tree.kids.Keys, d.tree.root) && i <= |Others(d.tree, m, p)|
    requires h.Over(d.tree.kids.Keys) && Are(d.tree.kids.Keys, h)
    requires Linked(h, With(Without(d.tree.kids, d.tree.up[m], m), p, i, m))
    ensures Valid(Document(Moved(d.tree, m, p, i), h))
  {
    MoveKeepsTree(d.tree, m, p, i);
    hide Linked, Are, IsTree, Owned;
  }

  lemma MovableParts(t: Family, p: Node?, m: Node?)
    requires Movable(t, p, m)
    ensures p != null && m != null && IsTree(t) && p in t.kids && m in t.up && m in t.kids
    ensures t.up[m] in t.kids && m in t.kids[t.up[m]]
  {
  }

  /** A node of another document has a parent there. */
  ghost predicate Near(d: Document, self: Node?, n: Node?)
    reads n
  {
    n != null && n.parent == self ==> n in d.tree.kids
  }

  /** Whether n is a child of self. */
  ghost predicate ChildOf(t: Family, n: Node?, self: Node?) {
    n != null && n in t.up && t.up[n] == self
  }

  /** The tree after m moved next to its new sibling n: before it, or after it. */
  ghost function MovedBeside(t: Family, m: Node?, p: Node?, n: Node?, offset: nat): (t': Family)
    requires Movable(t, p, m) && ChildOf(t, n, p) && m != n && offset <= 1
  {
    Moved(t, m, p, Beside(t, m, p, n) + offset)
  }

  lemma NodeParent(d: Document, self: Node?, n: Node)
    requires Valid(d) && Near(d, self, n) && self != null
    ensures n.parent == self <==> ChildOf(d.tree, n, self)
  {
    if n in d.tree.kids {
      ParentLinks(d.links, d.tree, n);
    }
  }

  lemma DetachedParts(t: Family, m: Node, p: Node, i: nat, h: Links, f: Children)
    requires Detached(t, m, h) && p in t.kids && f == Without(t.kids, t.up[m], m)
    ensures h.Over(t.kids.Keys) && Linked(h, f) && h.parent[m] == null && f.Keys == t.kids.Keys
    ensures m in f && p in f && f[p] == Others(t, m, p)
    ensures i <= |f[p]| ==> With(f, p, i, m) == f[p := Inserted(f[p], i, m)]
  {
  }

  method AppendMove(self: Node?, moved: Node?, ghost d: Document) returns (r: Node?, ghost d': Document)
    requires Valid(d) && Ours(d.tree, self) && Live(d.tree, moved)
    modifies d.tree.kids.Keys
    ensures Valid(d')
    ensures r == if Movable(d.tree, self, moved) then moved else null
    ensures d'.tree == if r == null then d.tree else Moved(d.tree, moved, self, |Others(d.tree, moved, self)|)
    ensures r == null ==> d' == d
  {
    hide Valid, Movable, IsTree, Linked, Are, Owned, Under, Moved, Without, With, Others, Beside, Place, Unlinked,
      Spliced, Inserted, Detached;
    var ok := AllowMove(self, moved, d);
    if !ok {
      return null, d;
    }
    MovableParts(d.tree, self, moved);
    ValidParts(d);
    ghost var t, f := d.tree, Without(d.tree.kids, d.tree.up[moved], moved);
    ghost var place := |Others(t, moved, self)|;
    ghost var h := Detach(moved, d);
    DetachedParts(t, moved, self, place, h, f);
    h := AppendNode(moved, self, f, h);
    Reattached(d, moved, self, place, h);
    return moved, Document(Moved(t, moved, self, place), h);
  }

  method PrependMove(self: Node?, moved: Node?, ghost d: Document) returns (r: Node?, ghost d': Document)
    requires Valid(d) && Ours(d.tree, self) && Live(d.tree, moved)
    modifies d.tree.kids.Keys
    ensures Valid(d')
    ensures r == if Movable(d.tree, self, moved) then moved else null
    ensures d'.tree == if r == null then d.tree else Moved(d.tree, moved, self, 0)
    ensures r == null ==> d' == d
  {
    hide Valid, Movable, IsTree, Linked, Are, Owned, Under, Moved, Without, With, Others, Beside, Place, Unlinked,
      Spliced, Inserted, Detached;
    var ok := AllowMove(self, moved, d);
    if !ok {
      return null, d;
    }
    MovableParts(d.tree, self, moved);
    ValidParts(d);
    ghost var t, f := d.tree, Without(d.tree.kids, d.tree.up[moved], moved);
    ghost var place := 0;
    ghost var h := Detach(moved, d);
    DetachedParts(t, moved, self, place, h, f);
    h := PrependNode(moved, self, f, h);
    Reattached(d, moved, self, place, h);
    return moved, Document(Moved(t, moved, self, place), h);
  }

  method ReinsertAfter(self: Node, moved: Node, node: Node, ghost d: Document) returns (ghost d': Document)
    requires Valid(d) && Movable(d.tree, self, moved) && ChildOf(d.tree, node, self) && moved != node
    modifies d.tree.kids.Keys
    ensures Valid(d') && d'.tree == MovedBeside(d.tree, moved, self, node, 1)
  {
    hide Valid, Movable, IsTree, Linked, Are, Owned, Under, Moved, Without, With, Others, Beside, Place, Unlinked,
      Spliced, Inserted, Detached;
    ValidParts(d);
    MovableParts(d.tree, self, moved);
    ghost var t, f := d.tree, Without(d.tree.kids, d.tree.up[moved], moved);
    ghost var place := Beside(t, moved, self, node) + 1;
    d' := Document(MovedBeside(t, moved, self, node, 1), d.links);
    ghost var h := Detach(moved, d);
    DetachedParts(t, moved, self, place, h, f);
    h := InsertNodeAfter(moved, node, f, h, self, place);
    Reattached(d, moved, self, place, h);
    d' := Document(d'.tree, h);
  }

  method InsertMoveAfter(self: Node?, moved: Node?, node: Node?, ghost d: Document)
    returns (r: Node?, ghost d': Document)
    requires Valid(d) && Ours(d.tree, self) && Live(d.tree, moved) && Near(d, self, node)
    modifies d.tree.kids.Keys
    ensures Valid(d')
    ensures r == if Movable(d.tree, self, moved) && ChildOf(d.tree, node, self) && moved != node then moved else null
    ensures d'.tree == if r == null then d.tree else MovedBeside(d.tree, moved, self, node, 1)
    ensures r == null ==> d' == d
  {
    hide Valid, Movable, IsTree, Linked, Are, Owned, Under, Moved, Without, With, Others, Beside, Place, Unlinked,
      Spliced, Inserted, Detached;
    var ok := AllowMove(self, moved, d);
    if !ok {
      return null, d;
    }
    MovableParts(d.tree, self, moved);
    if node != null {
      NodeParent(d, self, node);
    }
    if node == null || node.parent != self {
      return null, d;
    }
    if moved == node {
      return null, d;
    }
    d' := ReinsertAfter(self, moved, node, d);
    return moved, d';
  }

  method ReinsertBefore(self: Node, moved: Node, node: Node, ghost d: Document) returns (ghost d': Document)
    requires Valid(d) && Movable(d.tree, self, moved) && ChildOf(d.tree, node, self) && moved != node
    modifies d.tree.kids.Keys
    ensures Valid(d') && d'.tree == MovedBeside(d.tree, moved, self, node, 0)
  {
    hide Valid, Movable, IsTree, Linked, Are, Owned, Under, Moved, Without, With, Others, Beside, Place, Unlinked,
      Spliced, Inserted, Detached;
    ValidParts(d);
    MovableParts(d.tree, self, moved);
    ghost var t, f := d.tree, Without(d.tree.kids, d.tree.up[moved], moved);
    ghost var place := Beside(t, moved, self, node);
    d' := Document(MovedBeside(t, moved, self, node, 0), d.links);
    ghost var h := Detach(moved, d);
    DetachedParts(t, moved, self, place, h, f);
    h := InsertNodeBefore(moved, node, f, h, self, place);
    Reattached(d, moved, self, place, h);
    d' := Document(d'.tree, h);
  }

  method InsertMoveBefore(self: Node?, moved: Node?, node: Node?, ghost d: Document)
    returns (r: Node?, ghost d': Document)
    requires Valid(d) && Ours(d.tree, self) && Live(d.tree, moved) && Near(d, self, node)
    modifies d.tree.kids.Keys
    ensures Valid(d')
    ensures r == if Movable(d.tree, self, moved) && ChildOf(d.tree, node, self) && moved != node then moved else null
    ensures d'.tree == if r == null then d.tree else MovedBeside(d.tree, moved, self, node, 0)
    ensures r == null ==> d' == d
  {
    hide Valid, Movable, IsTree, Linked, Are, Owned, Under, Moved, Without, With, Others, Beside, Place, Unlinked,
      Spliced, Inserted, Detached;
    var ok := AllowMove(self, moved, d);
    if !ok {
      return null, d;
    }
    MovableParts(d.tree, self, moved);
    if node != null {
      NodeParent(d, self, node);
    }
    if node == null || node.parent != self {
      return null, d;
    }
    if moved == node {
      return null, d;
    }
    d' := ReinsertBefore(self, moved, node, d);
    return moved, d';
  }

  // Adding and removing children

  /** A node that hangs nowhere yet, of the given kind. */
  method Allocate(kind: Kind, self: Node, ghost d: Document) returns (n: Node, ghost f: Children, ghost h: Links)
    requires Valid(d) && self in d.tree.kids
    ensures fresh(n) && n !in d.tree.kids && n.kind == kind && n.name == NewName(kind) && n.document == d.tree.root
    ensures f == d.tree.kids[n := []] && f.Keys == d.tree.kids.Keys + {n} && f[self] == d.tree.kids[self]
    ensures Linked(h, f) && h.Over(f.Keys) && Are(f.Keys, h) && h.parent[n] == null
  {
    hide Valid, Linked, IsTree, WithLoose, Are;
    ValidParts(d);
    n := new Node(kind, self.document);
    f, h := d.tree.kids[n := []], WithLoose(d.links, n);
    LooseKeepsLinks(d.links, d.tree.kids, n);
    LooseOver(d.links, d.tree.kids.Keys, n);
    AreLoose(d.tree.kids.Keys, d.links, n);
  }

  lemma AreLoose(nodes: set<Node>, h: Links, n: Node)
    requires h.Over(nodes) && Are(nodes, h) && n !in nodes
    requires n.parent == null && n.firstChild == null && n.prevSiblingC == null && n.nextSibling == null
    ensures WithLoose(h, n).Over(nodes + {n}) && Are(nodes + {n}, WithLoose(h, n)) && WithLoose(h, n).parent[n] == null
  {
    LooseOver(h, nodes, n);
    var h' := WithLoose(h, n);
    forall m | m in nodes + {n}
      ensures m.parent == h'.parent[m] && m.firstChild == h'.first[m]
      ensures m.prevSiblingC == h'.prev[m] && m.nextSibling == h'.next[m]
    {
      if m != n {
        assert m in nodes;
      }
    }
  }

  /** The children in the tree with a new node are those of the links. */
  lemma AddedKids(t: Family, n: Node, p: Node, i: nat)
    requires IsTree(t) && n !in t.kids && p in t.kids && i <= |t.kids[p]|
    ensures
      var f := t.kids[n := []];
      && f.Keys == t.kids.Keys + {n} && p in f && f[p] == t.kids[p] && Added(t, n, p, i).root == t.root
      && Added(t, n, p, i).kids == f[p := Inserted(f[p], i, n)] && Added(t, n, p, i).kids.Keys == f.Keys
  {
    KeyAdded(t.kids, n, []);
    hide IsGraded, Inserted;
  }

  lemma OwnedMore(nodes: set<Node>, root: Node, n: Node)
    requires Owned(nodes, root) && n.document == root && n.kind != KDocument
    ensures Owned(nodes + {n}, root)
  {
  }

  /** The document with a new child that has been linked in. */
  lemma Grown(d: Document, n: Node, p: Node, i: nat, h: Links)
    requires IsTree(d.tree) && Owned(d.tree.kids.Keys, d.tree.root)
    requires n !in d.tree.kids && p in d.tree.kids && i <= |d.tree.kids[p]|
    requires n.document == d.tree.root && n.kind != KDocument
    requires
      var f := d.tree.kids[n := []];
      f.Keys == d.tree.kids.Keys + {n} && h.Over(f.Keys) && Are(f.Keys, h) && Linked(h, f[p := Inserted(f[p], i, n)])
    ensures p in d.tree.depth && Valid(Document(Added(d.tree, n, p, i), h))
  {
    hide Valid, IsTree, Linked, Are, Owned, Added, Inserted;
    AddKeepsTree(d.tree, n, p, i);
    AddedKids(d.tree, n, p, i);
    OwnedMore(d.tree.kids.Keys, d.tree.root, n);
    ValidWhole(Document(Added(d.tree, n, p, i), h));
  }

  lemma ValidWhole(d: Document)
    requires IsTree(d.tree) && Linked(d.links, d.tree.kids) && d.links.Over(d.tree.kids.Keys)
    requires Are(d.tree.kids.Keys, d.links) && Owned(d.tree.kids.Keys, d.tree.root)
    ensures Valid(d)
  {
  }

  /** The links of what remains after m was taken out. */
  lemma Mended(t: Family, m: Node, h: Links)
    requires Detached(t, m, h)
    ensures
      var t' := Pruned(t, m);
      t'.kids.Keys <= t.kids.Keys && Linked(h, t'.kids)
  {
    hide Linked, Pruned, Under, Without, Closed, IsFamily, IsGraded;
    var nodes := Pruned(t, m).kids.Keys;
    ListsOf(t, m, m);
    PrunedParts(t, m, h);
    forall n | n in nodes && h.parent[n] != null
      ensures h.parent[n] in nodes
    {
      StaysAbove(t, m, h, n);
    }
    RestrictKeepsLinks(h, Without(t.kids, t.up[m], m), nodes);
  }

  lemma PrunedParts(t: Family, m: Node, h: Links)
    requires Detached(t, m, h)
    ensures
      var f, t', nodes := Without(t.kids, t.up[m], m), Pruned(t, m), Pruned(t, m).kids.Keys;
      && f.Keys == t.kids.Keys && h.Over(f.Keys) && Linked(h, f) && nodes <= f.Keys
      && t'.kids == Part(f, nodes) && t'.root == t.root
      && (forall n :: n in t.kids ==> (n in nodes <==> !Under(t, n, m)))
      && (forall n, i :: n in nodes && 0 <= i < |f[n]| ==> f[n][i] in nodes)
  {
    PrunedKids(t, m);
    PruneKeepsTree(t, m);
    var f, t', nodes := Without(t.kids, t.up[m], m), Pruned(t, m), Pruned(t, m).kids.Keys;
    hide Linked, Under, IsGraded, Without, Pruned;
    forall n, i | n in nodes && 0 <= i < |f[n]|
      ensures f[n][i] in nodes
    {
      assert t'.kids[n][i] in t'.kids;
    }
  }

  lemma PrunedKids(t: Family, m: Node)
    requires IsTree(t) && m in t.up
    ensures
      var f, t', nodes := Without(t.kids, t.up[m], m), Pruned(t, m), Pruned(t, m).kids.Keys;
      && f.Keys == t.kids.Keys && nodes <= f.Keys && t'.kids == Part(f, nodes) && t'.root == t.root
      && (forall n :: n in t.kids ==> (n in nodes <==> !Under(t, n, m)))
  {
    hide Under, IsGraded, Removed;
  }

  /** After m is taken out, the parent of a node outside its subtree is outside too. */
  lemma StaysAbove(t: Family, m: Node, h: Links, n: Node)
    requires Detached(t, m, h) && n in t.kids && !Under(t, n, m) && h.parent[n] != null
    ensures h.parent[n] in t.kids && !Under(t, h.parent[n], m)
  {
    var f, p := Without(t.kids, t.up[m], m), h.parent[n];
    assert n in f[p];
    RemovedMembers(t.kids[t.up[m]], Place(t.kids[t.up[m]], m));
    UpOfChild(t, p, n);
  }

  method AppendChild(self: Node?, kind: Kind, ghost d: Document) returns (r: Node?, ghost d': Document)
    requires Valid(d) && Ours(d.tree, self)
    modifies d.tree.kids.Keys
    ensures Valid(d') && (r == null <==> !AllowInsertChild(self, kind))
    ensures r == null ==> d' == d
    ensures r != null ==> fresh(r) && r !in d.tree.kids && r.kind == kind && r.name == NewName(kind)
    ensures r != null ==> IsTree(d.tree) && d'.tree == Added(d.tree, r, self, |d.tree.kids[self]|)
  {
    hide Valid, IsTree, Linked, Are, Owned, Added, With, Spliced, Inserted, WithLoose;
    if !AllowInsertChild(self, kind) {
      return null, d;
    }
    ValidParts(d);
    ghost var f, h;
    var n: Node;
    n, f, h := Allocate(kind, self, d);
    h := AppendNode(n, self, f, h);
    Grown(d, n, self, |f[self]|, h);
    return n, Document(Added(d.tree, n, self, |f[self]|), h);
  }

  method PrependChild(self: Node?, kind: Kind, ghost d: Document) returns (r: Node?, ghost d': Document)
    requires Valid(d) && Ours(d.tree, self)
    modifies d.tree.kids.Keys
    ensures Valid(d') && (r == null <==> !AllowInsertChild(self, kind))
    ensures r == null ==> d' == d
    ensures r != null ==> fresh(r) && r !in d.tree.kids && r.kind == kind && r.name == NewName(kind)
    ensures r != null ==> IsTree(d.tree) && d'.tree == Added(d.tree, r, self, 0)
  {
    hide Valid, IsTree, Linked, Are, Owned, Added, With, Spliced, Inserted, WithLoose;
    if !AllowInsertChild(self, kind) {
      return null, d;
    }
    ValidParts(d);
    ghost var f, h;
    var n: Node;
    n, f, h := Allocate(kind, self, d);
    h := PrependNode(n, self, f, h);
    Grown(d, n, self, 0, h);
    return n, Document(Added(d.tree, n, self, 0), h);
  }

  method InsertChildBefore(self: Node?, kind: Kind, node: Node?, ghost d: Document)
    returns (r: Node?, ghost d': Document)
    requires Valid(d) && Ours(d.tree, self) && Near(d, self, node)
    modifies d.tree.kids.Keys
    ensures Valid(d') && (r == null <==> !(AllowInsertChild(self, kind) && ChildOf(d.tree, node, self)))
    ensures r == null ==> d' == d
    ensures r != null ==>
      fresh(r) && r !in d.tree.kids && r.kind == kind && r.name == NewName(kind) && node in d.tree.kids[self]
    ensures r != null ==> IsTree(d.tree) && d'.tree == Added(d.tree, r, self, Place(d.tree.kids[self], node))
  {
    hide Valid, IsTree, Linked, Are, Owned, Added, With, Spliced, Inserted, WithLoose, Place;
    if !AllowInsertChild(self, kind) {
      return null, d;
    }
    if node != null {
      NodeParent(d, self, node);
    }
    if node == null || node.parent != self {
      return null, d;
    }
    ValidParts(d);
    ListsOf(d.tree, node, node);
    ghost var f, h;
    var n: Node;
    n, f, h := Allocate(kind, self, d);
    ghost var place := Place(d.tree.kids[self], node);
    h := InsertNodeBefore(n, node, f, h, self, place);
    Grown(d, n, self, place, h);
    return n, Document(Added(d.tree, n, self, place), h);
  }

  method InsertChildAfter(self: Node?, kind: Kind, node: Node?, ghost d: Document)
    returns (r: Node?, ghost d': Document)
    requires Valid(d) && Ours(d.tree, self) && Near(d, self, node)
    modifies d.tree.kids.Keys
    ensures Valid(d') && (r == null <==> !(AllowInsertChild(self, kind) && ChildOf(d.tree, node, self)))
    ensures r == null ==> d' == d
    ensures r != null ==>
      fresh(r) && r !in d.tree.kids && r.kind == kind && r.name == NewName(kind) && node in d.tree.kids[self]
    ensures r != null ==> IsTree(d.tree) && d'.tree == Added(d.tree, r, self, Place(d.tree.kids[self], node) + 1)
  {
    hide Valid, IsTree, Linked, Are, Owned, Added, With, Spliced, Inserted, WithLoose, Place;
    if !AllowInsertChild(self, kind) {
      return null, d;
    }
    if node != null {
      NodeParent(d, self, node);
    }
    if node == null || node.parent != self {
      return null, d;
    }
    ValidParts(d);
    ListsOf(d.tree, node, node);
    ghost var f, h;
    var n: Node;
    n, f, h := Allocate(kind, self, d);
    ghost var place := Place(d.tree.kids[self], node) + 1;
    h := InsertNodeAfter(n, node, f, h, self, place);
    Grown(d, n, self, place, h);
    return n, Document(Added(d.tree, n, self, place), h);
  }

  method RemoveChild(self: Node?, n: Node?, ghost d: Document) returns (ok: bool, ghost d': Document)
    requires Valid(d) && Ours(d.tree, self) && Near(d, self, n)
    modifies d.tree.kids.Keys
    ensures Valid(d') && (ok <==> self != null && ChildOf(d.tree, n, self))
    ensures !ok ==> d' == d
    ensures ok ==> IsTree(d.tree) && d'.tree == Pruned(d.tree, n)
  {
    hide Valid, IsTree, Linked, Are, Owned, Pruned, Detached, Under;
    if self == null || n == null {
      return false, d;
    }
    NodeParent(d, self, n);
    if n.parent != self {
      return false, d;
    }
    ValidParts(d);
    ghost var h := Detach(n, d);
    Shrunk(d, n, h);
    return true, Document(Pruned(d.tree, n), h);
  }

  lemma Shrunk(d: Document, m: Node, h: Links)
    requires Detached(d.tree, m, h) && Owned(d.tree.kids.Keys, d.tree.root)
    requires h.Over(d.tree.kids.Keys) && Are(d.tree.kids.Keys, h)
    ensures IsTree(d.tree) && m in d.tree.up && Valid(Document(Pruned(d.tree, m), h))
  {
    hide Linked, IsFamily, IsGraded, Under, Without, Removed;
    Mended(d.tree, m, h);
    PruneKeepsTree(d.tree, m);
    PrunedKids(d.tree, m);
    hide Pruned, IsTree;
  }
}
