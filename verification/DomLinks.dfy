/**
 The links of the document tree, written in place: parent, first child, next sibling (null after the last one) and
 previous sibling (from the first one back to the last).
 */
module DomLinks {

  import opened Common
  import opened XmlTree

  /** A new declaration is named. */
  function NewName(kind: Kind): string {
    if kind == KDeclaration then "xml" else ""
  }

  class Node {
    const kind: Kind
    const name: string  // the one it is created with
    const document: Node
    var parent: Node?
    var firstChild: Node?
    var prevSiblingC: Node?
    var nextSibling: Node?

    constructor (kind: Kind, document: Node)
      ensures this.kind == kind && this.document == document && this.name == NewName(kind)
      ensures parent == null && firstChild == null && prevSiblingC == null && nextSibling == null
    {
      this.kind, this.name, this.document := kind, NewName(kind), document;
      parent, firstChild, prevSiblingC, nextSibling := null, null, null, null;
    }

    constructor Root()
      ensures kind == KDocument && document == this
      ensures parent == null && firstChild == null && prevSiblingC == this && nextSibling == null
    {
      kind, name, document := KDocument, "", this;
      parent, firstChild, prevSiblingC, nextSibling := null, null, this, null;
    }
  }

  // The links of a forest

  type Children = map<Node, seq<Node>>

  ghost function After(s: seq<Node>, i: nat): Node?
    requires i < |s|
  {
    if i + 1 < |s| then s[i + 1] else null
  }

  ghost function Before(s: seq<Node>, i: nat): Node
    requires i < |s|
  {
    if i == 0 then s[|s| - 1] else s[i - 1]
  }

  /** The link fields of a set of nodes. */
  datatype Links = Links(
    parent: map<Node, Node?>, first: map<Node, Node?>, prev: map<Node, Node?>, next: map<Node, Node?>)
  {
    ghost predicate Over(nodes: set<Node>) {
      forall n :: n in nodes ==> n in parent && n in first && n in prev && n in next
    }
  }

  /** The links of number i of the children s of n. */
  ghost predicate Hangs(h: Links, n: Node, s: seq<Node>, i: nat)
    requires i < |s| && s[i] in h.parent && s[i] in h.next && s[i] in h.prev
  {
    h.parent[s[i]] == n && h.next[s[i]] == After(s, i) && h.prev[s[i]] == Before(s, i)
  }

  /** The children of n are the nodes of s, in a ring that is open at the end. */
  ghost predicate Ring(h: Links, nodes: set<Node>, n: Node, s: seq<Node>)
    requires h.Over(nodes) && n in nodes && forall i :: 0 <= i < |s| ==> s[i] in nodes
  {
    && h.first[n] == (if s == [] then null else s[0])
    && Distinct(s)
    && forall i :: 0 <= i < |s| ==> Hangs(h, n, s, i)
  }

  ghost predicate Closed(f: Children) {
    forall n, i :: n in f && 0 <= i < |f[n]| ==> f[n][i] in f
  }

  ghost predicate Rings(h: Links, f: Children) {
    h.Over(f.Keys) && Closed(f) && forall n :: n in f ==> Ring(h, f.Keys, n, f[n])
  }

  ghost predicate Parents(h: Links, f: Children) {
    h.Over(f.Keys) && forall n :: n in f && h.parent[n] != null ==> h.parent[n] in f && n in f[h.parent[n]]
  }

  ghost predicate Orphans(h: Links, f: Children) {
    h.Over(f.Keys) && forall n :: n in f && h.parent[n] == null ==> h.next[n] == null
  }

  /** The links of the nodes of f are those of f: a node is a child where its parent link says, or nowhere. */
  ghost predicate Linked(h: Links, f: Children) {
    Rings(h, f) && Parents(h, f) && Orphans(h, f)
  }

  ghost function Inserted(s: seq<Node>, i: nat, n: Node): (r: seq<Node>)
    requires i <= |s|
    ensures |r| == |s| + 1
  {
    s[..i] + [n] + s[i..]
  }

  // What the link operations write

  /** The links after child became number i of the children s of p. */
  ghost function Spliced(h: Links, nodes: set<Node>, p: Node, s: seq<Node>, i: nat, child: Node): (h': Links)
    requires h.Over(nodes) && p in nodes && child in nodes && i <= |s| && forall i :: 0 <= i < |s| ==> s[i] in nodes
    ensures h'.Over(nodes)
  {
    Links(
      h.parent[child := p],
      if i == 0 then h.first[p := child] else h.first,
      (if i < |s| then h.prev[s[i] := child] else if s != [] then h.prev[s[0] := child] else h.prev)
        [child := if i > 0 then s[i - 1] else if s != [] then s[|s| - 1] else child],
      (if i > 0 then h.next[s[i - 1] := child] else h.next)[child := if i < |s| then s[i] else null])
  }

  lemma InsertedAt(s: seq<Node>, i: nat, n: Node, k: nat)
    requires i <= |s| && k <= |s|
    ensures Inserted(s, i, n)[k] == if k < i then s[k] else if k == i then n else s[k - 1]
  {
  }

  lemma SpliceNext(h: Links, nodes: set<Node>, p: Node, s: seq<Node>, i: nat, child: Node, k: nat)
    requires h.Over(nodes) && p in nodes && child in nodes && i <= |s| && forall i :: 0 <= i < |s| ==> s[i] in nodes
    requires Ring(h, nodes, p, s) && child !in s && k <= |s|
    ensures Inserted(s, i, child)[k] in nodes
    ensures Spliced(h, nodes, p, s, i, child).next[Inserted(s, i, child)[k]] == After(Inserted(s, i, child), k)
  {
    InsertedAt(s, i, child, k);
    if k < |s| {
      InsertedAt(s, i, child, k + 1);
      assert Hangs(h, p, s, k);
    }
    assert k > 0 ==> Hangs(h, p, s, k - 1);
    hide Inserted;
  }

  lemma SplicePrev(h: Links, nodes: set<Node>, p: Node, s: seq<Node>, i: nat, child: Node, k: nat)
    requires h.Over(nodes) && p in nodes && child in nodes && i <= |s| && forall i :: 0 <= i < |s| ==> s[i] in nodes
    requires Ring(h, nodes, p, s) && child !in s && k <= |s|
    ensures Inserted(s, i, child)[k] in nodes
    ensures Spliced(h, nodes, p, s, i, child).prev[Inserted(s, i, child)[k]] == Before(Inserted(s, i, child), k)
  {
    hide After, Distinct;
    InsertedAt(s, i, child, k);
    InsertedAt(s, i, child, |s|);
    if k > 0 {
      InsertedAt(s, i, child, k - 1);
    }
    hide Inserted;
    if k < i {
      assert Hangs(h, p, s, k);
      Different(s, k, i);
      Different(s, 0, k);
    } else if k > i {
      assert Hangs(h, p, s, k - 1);
      Different(s, i, k - 1);
    }
  }

  lemma Different(s: seq<Node>, j: int, k: int)
    requires Distinct(s)
    ensures 0 <= j < |s| && 0 <= k < |s| && j != k ==> s[j] != s[k]
  {
  }

  lemma SpliceHangs(h: Links, nodes: set<Node>, p: Node, s: seq<Node>, i: nat, child: Node, k: nat)
    requires h.Over(nodes) && p in nodes && child in nodes && i <= |s| && forall i :: 0 <= i < |s| ==> s[i] in nodes
    requires Ring(h, nodes, p, s) && child !in s && k <= |s|
    ensures Inserted(s, i, child)[k] in nodes
    ensures Hangs(Spliced(h, nodes, p, s, i, child), p, Inserted(s, i, child), k)
  {
    hide After, Before;
    InsertedAt(s, i, child, k);
    SpliceNext(h, nodes, p, s, i, child, k);
    SplicePrev(h, nodes, p, s, i, child, k);
    assert k < |s| ==> Hangs(h, p, s, k);
    assert k > 0 ==> Hangs(h, p, s, k - 1);
    hide Inserted;
  }

  lemma RingSpliced(h: Links, nodes: set<Node>, p: Node, s: seq<Node>, i: nat, child: Node)
    requires h.Over(nodes) && p in nodes && child in nodes && i <= |s| && forall i :: 0 <= i < |s| ==> s[i] in nodes
    requires Ring(h, nodes, p, s) && child !in s
    ensures forall k :: 0 <= k < |s| + 1 ==> Inserted(s, i, child)[k] in nodes
    ensures Ring(Spliced(h, nodes, p, s, i, child), nodes, p, Inserted(s, i, child))
  {
    forall k | 0 <= k < |s| + 1
      ensures Inserted(s, i, child)[k] in nodes && Hangs(Spliced(h, nodes, p, s, i, child), p, Inserted(s, i, child), k)
    {
      SpliceHangs(h, nodes, p, s, i, child, k);
    }
    InsertedAt(s, i, child, 0);
    StillDistinct(s, i, child);
    hide Inserted, Hangs, Distinct;
  }

  lemma StillDistinct(s: seq<Node>, i: nat, child: Node)
    requires Distinct(s) && child !in s && i <= |s|
    ensures Distinct(Inserted(s, i, child))
  {
    var r := Inserted(s, i, child);
    forall j, k | 0 <= j < k < |r|
      ensures r[j] != r[k]
    {
      InsertedAt(s, i, child, j);
      InsertedAt(s, i, child, k);
    }
  }

  /** Links that agree about a node and its children make the same ring. */
  lemma RingUntouched(h: Links, nodes: set<Node>, h': Links, nodes': set<Node>, n: Node, s: seq<Node>)
    requires h.Over(nodes) && n in nodes && forall i :: 0 <= i < |s| ==> s[i] in nodes
    requires h'.Over(nodes') && n in nodes' && forall i :: 0 <= i < |s| ==> s[i] in nodes'
    requires Ring(h, nodes, n, s) && h'.first[n] == h.first[n]
    requires forall i :: 0 <= i < |s| ==>
      h'.parent[s[i]] == h.parent[s[i]] && h'.next[s[i]] == h.next[s[i]] && h'.prev[s[i]] == h.prev[s[i]]
    ensures Ring(h', nodes', n, s)
  {
    forall i | 0 <= i < |s|
      ensures Hangs(h', n, s, i)
    {
      assert Hangs(h, n, s, i);
    }
  }

  /** A node is a child of its parent only. */
  lemma OnlyParent(h: Links, f: Children, n: Node, x: Node)
    requires Linked(h, f) && n in f && x in f[n]
    ensures x in f && h.parent[x] == n
  {
    var i :| 0 <= i < |f[n]| && f[n][i] == x;
    assert Hangs(h, n, f[n], i);
  }

  /** Two nodes share no child. */
  lemma ApartFrom(h: Links, f: Children, p: Node, n: Node)
    requires Linked(h, f) && p in f && n in f && n != p
    ensures forall k :: 0 <= k < |f[n]| ==> f[n][k] in f && f[n][k] !in f[p] && h.parent[f[n][k]] == n
  {
    forall k | 0 <= k < |f[n]|
      ensures f[n][k] in f && f[n][k] !in f[p] && h.parent[f[n][k]] == n
    {
      OnlyParent(h, f, n, f[n][k]);
      if f[n][k] in f[p] {
        OnlyParent(h, f, p, f[n][k]);
      }
    }
  }

  lemma RingElsewhere(h: Links, f: Children, p: Node, i: nat, child: Node, n: Node)
    requires Linked(h, f) && p in f && child in f && h.parent[child] == null && i <= |f[p]| && n in f && n != p
    ensures Ring(Spliced(h, f.Keys, p, f[p], i, child), f.Keys, n, f[n])
  {
    ApartFrom(h, f, p, n);
    var h' := Spliced(h, f.Keys, p, f[p], i, child);
    hide Ring, Linked, After, Before, Inserted;
    RingUntouched(h, f.Keys, h', f.Keys, n, f[n]);
  }

  lemma SpliceRings(h: Links, f: Children, p: Node, i: nat, child: Node)
    requires Linked(h, f) && p in f && child in f && h.parent[child] == null && i <= |f[p]|
    ensures Rings(Spliced(h, f.Keys, p, f[p], i, child), f[p := Inserted(f[p], i, child)])
  {
    var h' := Spliced(h, f.Keys, p, f[p], i, child);
    var f' := f[p := Inserted(f[p], i, child)];
    assert f'.Keys == f.Keys;
    if child in f[p] {
      OnlyParent(h, f, p, child);
    }
    RingSpliced(h, f.Keys, p, f[p], i, child);
    SpliceClosed(f, p, i, child);
    hide Ring, Inserted, Spliced, Closed, Parents, Orphans;
    forall n | n in f && n != p
      ensures Ring(h', f.Keys, n, f'[n])
    {
      hide Rings;
      RingElsewhere(h, f, p, i, child, n);
    }
  }

  lemma SpliceClosed(f: Children, p: Node, i: nat, child: Node)
    requires Closed(f) && p in f && child in f && i <= |f[p]|
    ensures Closed(f[p := Inserted(f[p], i, child)])
  {
  }

  lemma SpliceParents(h: Links, f: Children, p: Node, i: nat, child: Node)
    requires Linked(h, f) && p in f && child in f && h.parent[child] == null && i <= |f[p]|
    ensures Parents(Spliced(h, f.Keys, p, f[p], i, child), f[p := Inserted(f[p], i, child)])
  {
    SpliceMembers(f[p], i, child);
    assert Spliced(h, f.Keys, p, f[p], i, child).parent == h.parent[child := p];
    hide Rings, Orphans, Inserted, Spliced;
    assert f[p := Inserted(f[p], i, child)].Keys == f.Keys;
  }

  lemma SpliceOrphans(h: Links, f: Children, p: Node, i: nat, child: Node)
    requires Linked(h, f) && p in f && child in f && h.parent[child] == null && i <= |f[p]|
    ensures Orphans(Spliced(h, f.Keys, p, f[p], i, child), f[p := Inserted(f[p], i, child)])
  {
    if i > 0 {
      OnlyParent(h, f, p, f[p][i - 1]);
    }
    assert f[p := Inserted(f[p], i, child)].Keys == f.Keys;
    hide Rings, Parents, Inserted;
  }

  lemma SpliceKeepsLinks(h: Links, f: Children, p: Node, i: nat, child: Node)
    requires Linked(h, f) && p in f && child in f && h.parent[child] == null && i <= |f[p]|
    ensures Linked(Spliced(h, f.Keys, p, f[p], i, child), f[p := Inserted(f[p], i, child)])
  {
    SpliceRings(h, f, p, i, child);
    SpliceParents(h, f, p, i, child);
    SpliceOrphans(h, f, p, i, child);
    hide Rings, Parents, Orphans, Spliced, Inserted;
  }

  lemma SpliceMembers(s: seq<Node>, i: nat, child: Node)
    requires i <= |s|
    ensures forall n :: n in Inserted(s, i, child) <==> n == child || n in s
  {
    assert s == s[..i] + s[i..];
  }

  /** The links after number i of the children s of p was taken out. */
  ghost function Unlinked(h: Links, nodes: set<Node>, p: Node, s: seq<Node>, i: nat): (h': Links)
    requires h.Over(nodes) && p in nodes && i < |s| && forall i :: 0 <= i < |s| ==> s[i] in nodes
    ensures h'.Over(nodes)
  {
    Links(
      h.parent[s[i] := null],
      if i == 0 then h.first[p := After(s, 0)] else h.first,
      h.prev[if i + 1 < |s| then s[i + 1] else s[0] := Before(s, i)][s[i] := null],
      (if i > 0 then h.next[s[i - 1] := After(s, i)] else h.next)[s[i] := null])
  }

  lemma UnlinkedShape(h: Links, nodes: set<Node>, p: Node, s: seq<Node>, i: nat)
    requires h.Over(nodes) && p in nodes && i < |s| && forall i :: 0 <= i < |s| ==> s[i] in nodes
    ensures
      var h' := Unlinked(h, nodes, p, s, i);
      && h'.parent == h.parent[s[i] := null]
      && h'.first == (if i == 0 then h.first[p := After(s, 0)] else h.first)
      && h'.prev == h.prev[if i + 1 < |s| then s[i + 1] else s[0] := Before(s, i)][s[i] := null]
      && h'.next == (if i > 0 then h.next[s[i - 1] := After(s, i)] else h.next)[s[i] := null]
  {
    hide After, Before;
  }

  lemma UnlinkNext(h: Links, nodes: set<Node>, p: Node, s: seq<Node>, i: nat, k: nat)
    requires h.Over(nodes) && p in nodes && i < |s| && forall i :: 0 <= i < |s| ==> s[i] in nodes
    requires Ring(h, nodes, p, s) && k < |s| - 1
    ensures Removed(s, i)[k] in nodes
    ensures Unlinked(h, nodes, p, s, i).next[Removed(s, i)[k]] == After(Removed(s, i), k)
  {
    hide Distinct;
    RemovedAt(s, i, k);
    if k + 2 < |s| {
      RemovedAt(s, i, k + 1);
    }
    hide Removed;
    var j := if k < i then k else k + 1;
    assert Hangs(h, p, s, j);
    Different(s, j, i);
    Different(s, j, i - 1);
    var next' := Unlinked(h, nodes, p, s, i).next;
    if k + 1 == i {
      assert next'[s[j]] == After(s, i);
    } else {
      assert next'[s[j]] == After(s, j);
    }
  }

  lemma UnlinkPrev(h: Links, nodes: set<Node>, p: Node, s: seq<Node>, i: nat, k: nat)
    requires h.Over(nodes) && p in nodes && i < |s| && forall i :: 0 <= i < |s| ==> s[i] in nodes
    requires Ring(h, nodes, p, s) && k < |s| - 1
    ensures Removed(s, i)[k] in nodes
    ensures Unlinked(h, nodes, p, s, i).prev[Removed(s, i)[k]] == Before(Removed(s, i), k)
  {
    hide Distinct, After;
    RemovedAt(s, i, k);
    RemovedAt(s, i, |s| - 2);
    if k > 0 {
      RemovedAt(s, i, k - 1);
    }
    hide Removed;
    var j := if k < i then k else k + 1;
    assert Hangs(h, p, s, j);
    Different(s, j, i);
    Different(s, j, 0);
    Different(s, j, i + 1);
    var prev' := Unlinked(h, nodes, p, s, i).prev;
    if k == i || (i == |s| - 1 && k == 0) {
      assert prev'[s[j]] == Before(s, i);
    } else {
      assert prev'[s[j]] == Before(s, j);
    }
  }

  lemma HangsUnlinked(h: Links, nodes: set<Node>, p: Node, s: seq<Node>, i: nat, k: nat)
    requires h.Over(nodes) && p in nodes && i < |s| && forall i :: 0 <= i < |s| ==> s[i] in nodes
    requires Ring(h, nodes, p, s) && k < |s| - 1
    ensures Removed(s, i)[k] in nodes && Hangs(Unlinked(h, nodes, p, s, i), p, Removed(s, i), k)
  {
    UnlinkedShape(h, nodes, p, s, i);
    UnlinkNext(h, nodes, p, s, i, k);
    UnlinkPrev(h, nodes, p, s, i, k);
    RemovedAt(s, i, k);
    hide Unlinked, After, Before, Removed;
    var j := if k < i then k else k + 1;
    assert Hangs(h, p, s, j);
    Different(s, j, i);
  }

  lemma RingUnlinked(h: Links, nodes: set<Node>, p: Node, s: seq<Node>, i: nat)
    requires h.Over(nodes) && p in nodes && i < |s| && forall i :: 0 <= i < |s| ==> s[i] in nodes
    requires Ring(h, nodes, p, s)
    ensures forall k :: 0 <= k < |s| - 1 ==> Removed(s, i)[k] in nodes
    ensures Ring(Unlinked(h, nodes, p, s, i), nodes, p, Removed(s, i))
  {
    hide Unlinked, Hangs, After, Before, Removed, Distinct;
    var h', r := Unlinked(h, nodes, p, s, i), Removed(s, i);
    forall k | 0 <= k < |r|
      ensures r[k] in nodes && Hangs(h', p, r, k)
    {
      HangsUnlinked(h, nodes, p, s, i, k);
    }
    RemovedDistinct(s, i);
    FirstUnlinked(h, nodes, p, s, i);
  }

  lemma FirstUnlinked(h: Links, nodes: set<Node>, p: Node, s: seq<Node>, i: nat)
    requires h.Over(nodes) && p in nodes && i < |s| && forall i :: 0 <= i < |s| ==> s[i] in nodes
    requires h.first[p] == s[0]
    ensures Unlinked(h, nodes, p, s, i).first[p] == if |s| == 1 then null else Removed(s, i)[0]
  {
    UnlinkedShape(h, nodes, p, s, i);
    if |s| > 1 {
      RemovedAt(s, i, 0);
    }
    hide Unlinked, Removed;
  }

  lemma RingElsewhereUnlinked(h: Links, f: Children, p: Node, i: nat, n: Node)
    requires Linked(h, f) && p in f && i < |f[p]| && n in f && n != p
    ensures Ring(Unlinked(h, f.Keys, p, f[p], i), f.Keys, n, f[n])
  {
    ApartFrom(h, f, p, n);
    var h' := Unlinked(h, f.Keys, p, f[p], i);
    hide Ring, Linked, After, Before;
    RingUntouched(h, f.Keys, h', f.Keys, n, f[n]);
  }

  lemma RemovedMembers(s: seq<Node>, i: nat)
    requires i < |s| && Distinct(s)
    ensures forall n :: n in Removed(s, i) <==> n in s && n != s[i]
  {
    assert s == s[..i] + [s[i]] + s[i + 1..];
  }

  lemma UnlinkClosed(f: Children, p: Node, i: nat)
    requires Closed(f) && p in f && i < |f[p]|
    ensures Closed(f[p := Removed(f[p], i)])
  {
  }

  lemma UnlinkParents(h: Links, f: Children, p: Node, i: nat)
    requires Linked(h, f) && p in f && i < |f[p]|
    ensures Parents(Unlinked(h, f.Keys, p, f[p], i), f[p := Removed(f[p], i)])
  {
    hide Orphans, Removed;
    assert Ring(h, f.Keys, p, f[p]);
    RemovedMembers(f[p], i);
    assert Unlinked(h, f.Keys, p, f[p], i).parent == h.parent[f[p][i] := null];
    hide Rings, Unlinked;
    assert f[p := Removed(f[p], i)].Keys == f.Keys;
  }

  lemma UnlinkOrphans(h: Links, f: Children, p: Node, i: nat)
    requires Linked(h, f) && p in f && i < |f[p]|
    ensures Orphans(Unlinked(h, f.Keys, p, f[p], i), f[p := Removed(f[p], i)])
  {
    hide Parents, After, Before, Unlinked, Removed;
    var h', x := Unlinked(h, f.Keys, p, f[p], i), f[p][i];
    if i > 0 {
      OnlyParent(h, f, p, f[p][i - 1]);
    }
    OnlyParent(h, f, p, x);
    UnlinkedShape(h, f.Keys, p, f[p], i);
    assert f[p := Removed(f[p], i)].Keys == f.Keys;
    forall n | n in f && h'.parent[n] == null
      ensures h'.next[n] == null
    {
      if n != x {
        assert h.parent[n] == null;
      }
    }
  }

  lemma UnlinkRings(h: Links, f: Children, p: Node, i: nat)
    requires Linked(h, f) && p in f && i < |f[p]|
    ensures Rings(Unlinked(h, f.Keys, p, f[p], i), f[p := Removed(f[p], i)])
  {
    var h' := Unlinked(h, f.Keys, p, f[p], i);
    var f' := f[p := Removed(f[p], i)];
    assert f'.Keys == f.Keys;
    RingUnlinked(h, f.Keys, p, f[p], i);
    UnlinkClosed(f, p, i);
    hide Ring, Unlinked, Removed, Closed, Parents, Orphans;
    forall n | n in f && n != p
      ensures Ring(h', f.Keys, n, f'[n])
    {
      hide Rings;
      RingElsewhereUnlinked(h, f, p, i, n);
    }
  }

  lemma UnlinkKeepsLinks(h: Links, f: Children, p: Node, i: nat)
    requires Linked(h, f) && p in f && i < |f[p]|
    ensures Linked(Unlinked(h, f.Keys, p, f[p], i), f[p := Removed(f[p], i)])
  {
    UnlinkRings(h, f, p, i);
    UnlinkParents(h, f, p, i);
    UnlinkOrphans(h, f, p, i);
    hide Rings, Parents, Orphans, Unlinked, Removed;
  }

  // Nodes that come and go

  /** The links with one more node, which hangs nowhere. */
  ghost function WithLoose(h: Links, n: Node): Links {
    Links(h.parent[n := null], h.first[n := null], h.prev[n := null], h.next[n := null])
  }

  lemma KeyAdded<V>(m: map<Node, V>, n: Node, v: V)
    ensures (m[n := v]).Keys == m.Keys + {n}
  {
  }

  lemma LooseOver(h: Links, nodes: set<Node>, n: Node)
    requires h.Over(nodes)
    ensures WithLoose(h, n).Over(nodes + {n})
  {
    KeyAdded(h.parent, n, null);
    KeyAdded(h.first, n, null);
    KeyAdded(h.prev, n, null);
    KeyAdded(h.next, n, null);
  }

  lemma LooseRing(h: Links, f: Children, n: Node, m: Node)
    requires Linked(h, f) && n !in f && m in f
    ensures
      var h', nodes := WithLoose(h, n), f.Keys + {n};
      h'.Over(nodes) && (forall i :: 0 <= i < |f[m]| ==> f[m][i] in nodes) && Ring(h', nodes, m, f[m])
  {
    var h' := WithLoose(h, n);
    assert Ring(h, f.Keys, m, f[m]);
    assert forall i :: 0 <= i < |f[m]| ==> f[m][i] in f.Keys && f[m][i] != n;
    LooseOver(h, f.Keys, n);
    hide Distinct, Linked, Ring, Hangs, After, Before;
    RingUntouched(h, f.Keys, h', f.Keys + {n}, m, f[m]);
  }

  lemma LooseParents(h: Links, f: Children, n: Node)
    requires Linked(h, f) && n !in f
    ensures Parents(WithLoose(h, n), f[n := []]) && Orphans(WithLoose(h, n), f[n := []])
  {
    KeyAdded(f, n, []);
    LooseOver(h, f.Keys, n);
    hide Rings;
  }

  lemma LooseRings(h: Links, f: Children, n: Node)
    requires Linked(h, f) && n !in f
    ensures Rings(WithLoose(h, n), f[n := []])
  {
    var h', f' := WithLoose(h, n), f[n := []];
    KeyAdded(f, n, []);
    LooseAlone(h, f.Keys, n);
    assert Closed(f');
    hide Ring, Closed, WithLoose, Parents, Orphans;
    forall m | m in f
      ensures (forall i :: 0 <= i < |f[m]| ==> f[m][i] in f') && Ring(h', f'.Keys, m, f[m])
    {
      hide Rings;
      LooseRing(h, f, n, m);
    }
  }

  lemma LooseKeepsLinks(h: Links, f: Children, n: Node)
    requires Linked(h, f) && n !in f
    ensures (f[n := []]).Keys == f.Keys + {n}
    ensures Linked(WithLoose(h, n), f[n := []])
  {
    KeyAdded(f, n, []);
    LooseRings(h, f, n);
    LooseParents(h, f, n);
    hide Rings, Parents, Orphans, WithLoose;
  }

  lemma LooseAlone(h: Links, nodes: set<Node>, n: Node)
    requires h.Over(nodes)
    ensures WithLoose(h, n).Over(nodes + {n}) && Ring(WithLoose(h, n), nodes + {n}, n, [])
  {
    LooseOver(h, nodes, n);
  }

  ghost function Part(f: Children, nodes: set<Node>): Children
    requires nodes <= f.Keys
  {
    map n | n in nodes :: f[n]
  }

  /** Nodes with all their children and their parents among them are linked by themselves. */
  lemma RestrictKeepsLinks(h: Links, f: Children, nodes: set<Node>)
    requires Linked(h, f) && nodes <= f.Keys
    requires forall n, i :: n in nodes && 0 <= i < |f[n]| ==> f[n][i] in nodes
    requires forall n :: n in nodes && h.parent[n] != null ==> h.parent[n] in nodes
    ensures Linked(h, Part(f, nodes))
  {
    var f' := Part(f, nodes);
    assert f'.Keys == nodes;
    forall n | n in nodes
      ensures Ring(h, nodes, n, f'[n])
    {
      hide Ring, After, Before, Distinct, Hangs;
      RingUntouched(h, f.Keys, h, nodes, n, f[n]);
    }
    hide Ring;
  }

  // The link operations

  /** The links in the heap are h. */
  ghost predicate Are(nodes: set<Node>, h: Links)
    requires h.Over(nodes)
    reads nodes
  {
    forall n :: n in nodes ==>
      n.parent == h.parent[n] && n.firstChild == h.first[n] && n.prevSiblingC == h.prev[n] && n.nextSibling == h.next[n]
  }

  /** What an operation reads around place i of the children of p. */
  ghost predicate Surroundings(h: Links, f: Children, p: Node, i: nat) {
    && p in f && h.Over(f.Keys) && i < |f[p]|
    && var s := f[p];
    && s[i] in f && s[0] in f && h.first[p] == s[0] && h.parent[s[i]] == p
    && h.next[s[i]] == After(s, i) && h.prev[s[i]] == Before(s, i)
    && (i + 1 < |s| ==> s[i + 1] in f && s[i + 1] != s[i])
    && (i > 0 ==> s[i - 1] in f && s[i - 1] != s[i])
    && s[|s| - 1] in f
  }

  lemma Around(h: Links, f: Children, p: Node, i: nat)
    requires Linked(h, f) && p in f && i < |f[p]|
    ensures Surroundings(h, f, p, i)
  {
    assert Ring(h, f.Keys, p, f[p]);
    assert Hangs(h, p, f[p], i);
  }

  /** What an insertion reads at the ends of the children of p; child is not among them. */
  ghost predicate Ends(h: Links, f: Children, p: Node, child: Node) {
    && p in f && child in f && h.Over(f.Keys) && h.next[child] == null
    && var s := f[p];
    && child !in s
    && (h.first[p] == null <==> s == [])
    && (s != [] ==>
      && s[0] in f && s[|s| - 1] in f && h.first[p] == s[0] && h.prev[s[0]] == s[|s| - 1]
      && h.next[s[|s| - 1]] == null)
  }

  lemma EndsOf(h: Links, f: Children, p: Node, child: Node)
    requires Linked(h, f) && p in f && child in f && h.parent[child] == null
    ensures Ends(h, f, p, child)
  {
    assert Ring(h, f.Keys, p, f[p]);
    if f[p] != [] {
      Around(h, f, p, 0);
      Around(h, f, p, |f[p]| - 1);
    }
    if child in f[p] {
      OnlyParent(h, f, p, child);
    }
  }

  lemma Read(nodes: set<Node>, h: Links, n: Node)
    requires h.Over(nodes) && Are(nodes, h) && n in nodes
    ensures n.parent == h.parent[n] && n.firstChild == h.first[n]
    ensures n.prevSiblingC == h.prev[n] && n.nextSibling == h.next[n]
  {
  }

  method SetParent(n: Node, value: Node?, ghost nodes: set<Node>, ghost h: Links) returns (ghost h': Links)
    requires h.Over(nodes) && Are(nodes, h) && n in nodes
    modifies n`parent
    ensures h' == h.(parent := h.parent[n := value]) && h'.Over(nodes) && Are(nodes, h')
  {
    n.parent := value;
    h' := h.(parent := h.parent[n := value]);
  }

  method SetFirst(n: Node, value: Node?, ghost nodes: set<Node>, ghost h: Links) returns (ghost h': Links)
    requires h.Over(nodes) && Are(nodes, h) && n in nodes
    modifies n`firstChild
    ensures h' == h.(first := h.first[n := value]) && h'.Over(nodes) && Are(nodes, h')
  {
    n.firstChild := value;
    h' := h.(first := h.first[n := value]);
  }

  method SetPrev(n: Node, value: Node?, ghost nodes: set<Node>, ghost h: Links) returns (ghost h': Links)
    requires h.Over(nodes) && Are(nodes, h) && n in nodes
    modifies n`prevSiblingC
    ensures h' == h.(prev := h.prev[n := value]) && h'.Over(nodes) && Are(nodes, h')
  {
    n.prevSiblingC := value;
    h' := h.(prev := h.prev[n := value]);
  }

  method SetNext(n: Node, value: Node?, ghost nodes: set<Node>, ghost h: Links) returns (ghost h': Links)
    requires h.Over(nodes) && Are(nodes, h) && n in nodes
    modifies n`nextSibling
    ensures h' == h.(next := h.next[n := value]) && h'.Over(nodes) && Are(nodes, h')
  {
    n.nextSibling := value;
    h' := h.(next := h.next[n := value]);
  }

  method ClearLinks(n: Node, ghost nodes: set<Node>, ghost h: Links) returns (ghost h': Links)
    requires h.Over(nodes) && Are(nodes, h) && n in nodes
    modifies n
    ensures h' == Links(h.parent[n := null], h.first, h.prev[n := null], h.next[n := null])
    ensures h'.Over(nodes) && Are(nodes, h')
  {
    hide Are;
    h' := SetParent(n, null, nodes, h);
    h' := SetPrev(n, null, nodes, h');
    h' := SetNext(n, null, nodes, h');
  }

  // What the assignments of an operation amount to

  lemma Swapped(m: map<Node, Node?>, a: Node, x: Node?, b: Node, y: Node?)
    ensures a != b ==> m[a := x][b := y] == m[b := y][a := x]
    ensures m[a := x][a := y] == m[a := y]
    ensures a in m && m[a] == x ==> m[a := x] == m
  {
  }

  lemma AppendWrites(h: Links, f: Children, p: Node, child: Node)
    requires Linked(h, f) && p in f && child in f && h.parent[child] == null
    ensures
      var s := f[p];
      && Ends(h, f, p, child)
      && Spliced(h, f.Keys, p, s, |s|, child) ==
        if s == [] then Links(h.parent[child := p], h.first[p := child], h.prev[child := child], h.next)
        else
          var tail := s[|s| - 1];
          Links(h.parent[child := p], h.first, h.prev[child := tail][s[0] := child], h.next[tail := child])
  {
    var s := f[p];
    EndsOf(h, f, p, child);
    hide Linked;
    if s == [] {
      Swapped(h.next, child, null, child, null);
    } else {
      var tail := s[|s| - 1];
      Swapped(h.next[tail := child], child, null, child, null);
      Swapped(h.prev, child, tail, s[0], child);
    }
  }

  lemma PrependWrites(h: Links, f: Children, p: Node, child: Node)
    requires Linked(h, f) && p in f && child in f && h.parent[child] == null
    ensures
      var s := f[p];
      && Ends(h, f, p, child)
      && Spliced(h, f.Keys, p, s, 0, child) ==
        if s == [] then Links(h.parent[child := p], h.first[p := child], h.prev[child := child], h.next[child := null])
        else Links(h.parent[child := p], h.first[p := child], h.prev[child := s[|s| - 1]][s[0] := child],
                   h.next[child := s[0]])
  {
    var s := f[p];
    EndsOf(h, f, p, child);
    hide Linked;
    var h' := Spliced(h, f.Keys, p, s, 0, child);
    if s != [] {
      Swapped(h.prev, child, s[|s| - 1], s[0], child);
      assert h'.prev == h.prev[child := s[|s| - 1]][s[0] := child];
    } else {
      assert h'.prev == h.prev[child := child];
    }
  }

  lemma AfterWrites(h: Links, f: Children, p: Node, i: nat, child: Node)
    requires Linked(h, f) && p in f && child in f && h.parent[child] == null && i < |f[p]|
    ensures
      var s := f[p];
      && Ends(h, f, p, child) && Surroundings(h, f, p, i)
      && Spliced(h, f.Keys, p, s, i + 1, child) ==
        Links(h.parent[child := p], h.first, h.prev[if i + 1 < |s| then s[i + 1] else s[0] := child][child := s[i]],
              h.next[child := After(s, i)][s[i] := child])
  {
    var s := f[p];
    EndsOf(h, f, p, child);
    Around(h, f, p, i);
    hide Linked;
    Swapped(h.next, child, After(s, i), s[i], child);
  }

  lemma BeforeWrites(h: Links, f: Children, p: Node, i: nat, child: Node)
    requires Linked(h, f) && p in f && child in f && h.parent[child] == null && i < |f[p]|
    ensures
      var s := f[p];
      && Ends(h, f, p, child) && Surroundings(h, f, p, i) && (i > 0 ==> h.next[s[i - 1]] == s[i])
      && Spliced(h, f.Keys, p, s, i, child) ==
        Links(h.parent[child := p], if i == 0 then h.first[p := child] else h.first,
              h.prev[child := Before(s, i)][s[i] := child],
              (if i > 0 then h.next[s[i - 1] := child] else h.next)[child := s[i]])
  {
    var s := f[p];
    EndsOf(h, f, p, child);
    Around(h, f, p, i);
    if i > 0 {
      Around(h, f, p, i - 1);
    }
    hide Linked, Before;
    BeforeShape(h, f.Keys, p, s, i, child);
  }

  lemma BeforeShape(h: Links, nodes: set<Node>, p: Node, s: seq<Node>, i: nat, child: Node)
    requires h.Over(nodes) && p in nodes && child in nodes && i < |s| && forall i :: 0 <= i < |s| ==> s[i] in nodes
    requires child !in s
    ensures
      Spliced(h, nodes, p, s, i, child) ==
        Links(h.parent[child := p], if i == 0 then h.first[p := child] else h.first,
              h.prev[child := Before(s, i)][s[i] := child],
              (if i > 0 then h.next[s[i - 1] := child] else h.next)[child := s[i]])
  {
    Swapped(h.prev, child, Before(s, i), s[i], child);
  }

  lemma NextOf(h: Links, f: Children, p: Node, i: nat)
    requires Linked(h, f) && p in f && i < |f[p]|
    ensures f[p][i] in f && f[p][i] in h.next && h.next[f[p][i]] == After(f[p], i)
  {
    Around(h, f, p, i);
    hide Linked, After, Before;
  }

  lemma RemoveReads(h: Links, f: Children, p: Node, i: nat)
    requires Linked(h, f) && p in f && i < |f[p]|
    ensures var s := f[p]; Surroundings(h, f, p, i) && h.next[s[|s| - 1]] == null
    ensures var s := f[p]; i > 0 ==> h.next[s[i - 1]] == s[i]
    ensures forall i :: 0 <= i < |f[p]| ==> f[p][i] in f
  {
    hide Before, Ring, Parents, Orphans;
    Around(h, f, p, i);
    NextOf(h, f, p, |f[p]| - 1);
    if i > 0 {
      NextOf(h, f, p, i - 1);
    }
  }

  lemma StillBefore(m: map<Node, Node?>, x: Node, n: Node)
    requires x in m && n in m
    ensures m[x := m[n]][n] == m[n]
  {
  }

  method AppendNode(child: Node, node: Node, ghost f: Children, ghost h: Links) returns (ghost h': Links)
    requires Linked(h, f) && Are(f.Keys, h) && child in f && node in f && h.parent[child] == null
    modifies f.Keys
    ensures h' == Spliced(h, f.Keys, node, f[node], |f[node]|, child) && h'.Over(f.Keys) && Are(f.Keys, h')
    ensures Linked(h', f[node := Inserted(f[node], |f[node]|, child)])
  {
    SpliceKeepsLinks(h, f, node, |f[node]|, child);
    AppendWrites(h, f, node, child);
    hide Linked, Inserted, Are, Spliced;
    h' := SetParent(child, node, f.Keys, h);
    Read(f.Keys, h', node);
    var head := node.firstChild;
    if head != null {
      Read(f.Keys, h', head);
      var tail := head.prevSiblingC;
      h' := SetNext(tail, child, f.Keys, h');
      h' := SetPrev(child, tail, f.Keys, h');
      h' := SetPrev(head, child, f.Keys, h');
    } else {
      h' := SetFirst(node, child, f.Keys, h');
      h' := SetPrev(child, child, f.Keys, h');
    }
  }

  method PrependNode(child: Node, node: Node, ghost f: Children, ghost h: Links) returns (ghost h': Links)
    requires Linked(h, f) && Are(f.Keys, h) && child in f && node in f && h.parent[child] == null
    modifies f.Keys
    ensures h' == Spliced(h, f.Keys, node, f[node], 0, child) && h'.Over(f.Keys) && Are(f.Keys, h')
    ensures Linked(h', f[node := Inserted(f[node], 0, child)])
  {
    SpliceKeepsLinks(h, f, node, 0, child);
    PrependWrites(h, f, node, child);
    hide Linked, Inserted, Are, Spliced;
    h' := SetParent(child, node, f.Keys, h);
    Read(f.Keys, h', node);
    var head := node.firstChild;
    if head != null {
      Read(f.Keys, h', head);
      h' := SetPrev(child, head.prevSiblingC, f.Keys, h');
      h' := SetPrev(head, child, f.Keys, h');
    } else {
      h' := SetPrev(child, child, f.Keys, h');
    }
    h' := SetNext(child, head, f.Keys, h');
    h' := SetFirst(node, child, f.Keys, h');
  }

  method InsertNodeAfter(child: Node, node: Node, ghost f: Children, ghost h: Links, ghost p: Node, ghost i: nat)
    returns (ghost h': Links)
    requires Linked(h, f) && Are(f.Keys, h) && child in f && h.parent[child] == null
    requires p in f && 0 < i <= |f[p]| && f[p][i - 1] == node
    modifies f.Keys
    ensures h' == Spliced(h, f.Keys, p, f[p], i, child) && h'.Over(f.Keys) && Are(f.Keys, h')
    ensures Linked(h', f[p := Inserted(f[p], i, child)])
  {
    SpliceKeepsLinks(h, f, p, i, child);
    AfterWrites(h, f, p, i - 1, child);
    hide Linked, Inserted, Are, Spliced;
    Read(f.Keys, h, node);
    var parent := node.parent;
    h' := SetParent(child, parent, f.Keys, h);
    Read(f.Keys, h', node);
    if node.nextSibling != null {
      h' := SetPrev(node.nextSibling, child, f.Keys, h');
    } else {
      Read(f.Keys, h', parent);
      h' := SetPrev(parent.firstChild, child, f.Keys, h');
    }
    Read(f.Keys, h', node);
    h' := SetNext(child, node.nextSibling, f.Keys, h');
    h' := SetPrev(child, node, f.Keys, h');
    h' := SetNext(node, child, f.Keys, h');
  }

  method InsertNodeBefore(child: Node, node: Node, ghost f: Children, ghost h: Links, ghost p: Node, ghost i: nat)
    returns (ghost h': Links)
    requires Linked(h, f) && Are(f.Keys, h) && child in f && h.parent[child] == null
    requires p in f && i < |f[p]| && f[p][i] == node
    modifies f.Keys
    ensures h' == Spliced(h, f.Keys, p, f[p], i, child) && h'.Over(f.Keys) && Are(f.Keys, h')
    ensures Linked(h', f[p := Inserted(f[p], i, child)])
  {
    SpliceKeepsLinks(h, f, p, i, child);
    BeforeWrites(h, f, p, i, child);
    hide Linked, Inserted, Are, Spliced;
    Read(f.Keys, h, node);
    var parent := node.parent;
    h' := SetParent(child, parent, f.Keys, h);
    Read(f.Keys, h', node);
    Read(f.Keys, h', node.prevSiblingC);
    if node.prevSiblingC.nextSibling != null {
      h' := SetNext(node.prevSiblingC, child, f.Keys, h');
    } else {
      h' := SetFirst(parent, child, f.Keys, h');
    }
    Read(f.Keys, h', node);
    h' := SetPrev(child, node.prevSiblingC, f.Keys, h');
    h' := SetNext(child, node, f.Keys, h');
    h' := SetPrev(node, child, f.Keys, h');
  }

  method RemoveNode(node: Node, ghost f: Children, ghost h: Links, ghost p: Node, ghost i: nat)
    returns (ghost h': Links)
    requires Linked(h, f) && Are(f.Keys, h) && p in f && i < |f[p]| && f[p][i] == node
    modifies f.Keys
    ensures h' == Unlinked(h, f.Keys, p, f[p], i) && h'.Over(f.Keys) && Are(f.Keys, h')
    ensures Linked(h', f[p := Removed(f[p], i)])
  {
    UnlinkKeepsLinks(h, f, p, i);
    RemoveReads(h, f, p, i);
    UnlinkedShape(h, f.Keys, p, f[p], i);
    StillBefore(h.prev, if i + 1 < |f[p]| then f[p][i + 1] else f[p][0], node);
    hide Linked, Removed, Are, Unlinked;
    h' := h;
    Read(f.Keys, h, node);
    var parent := node.parent;
    Read(f.Keys, h, parent);
    if node.nextSibling != null {
      h' := SetPrev(node.nextSibling, node.prevSiblingC, f.Keys, h');
    } else {
      h' := SetPrev(parent.firstChild, node.prevSiblingC, f.Keys, h');
    }
    assert h'.prev == h.prev[if i + 1 < |f[p]| then f[p][i + 1] else f[p][0] := h.prev[node]];
    Read(f.Keys, h', node);
    Read(f.Keys, h', node.prevSiblingC);
    if node.prevSiblingC.nextSibling != null {
      h' := SetNext(node.prevSiblingC, node.nextSibling, f.Keys, h');
    } else {
      h' := SetFirst(parent, node.nextSibling, f.Keys, h');
    }
    h' := ClearLinks(node, f.Keys, h');
  }
}
