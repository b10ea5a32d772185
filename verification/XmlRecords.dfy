/**
 The node records that the parser makes, and in what order they and their strings come.
 */
module XmlRecords {

  import opened XmlTree

  datatype AttrRec = AttrRec(name: int, value: int)

  /** A node as the parser leaves it: the strings are positions in the buffer, or -1; the parent is a node number. */
  datatype NodeRec = NodeRec(kind: Kind, parent: int, name: int, value: int, attributes: seq<AttrRec>)

  /** Where a node's own string begins: its name, or its value if it has no name; -1 if it has neither. */
  function NodeKey(r: NodeRec): int {
    if r.name != -1 then r.name else r.value
  }

  /** Where the last string of a node or of one of its attributes begins, names only. */
  function LastKey(r: NodeRec): int {
    if r.attributes == [] then NodeKey(r) else r.attributes[|r.attributes| - 1].name
  }

  ghost predicate AttributesNamed(r: NodeRec) {
    forall m :: 0 <= m < |r.attributes| ==> r.attributes[m].name >= 0
  }

  /** Where the name in front of attribute m begins. */
  function KeyBefore(r: NodeRec, m: nat): int
    requires m <= |r.attributes|
  {
    if m == 0 then NodeKey(r) else r.attributes[m - 1].name
  }

  ghost predicate AttributesAscend(r: NodeRec) {
    forall m :: 0 <= m < |r.attributes| ==> KeyBefore(r, m) < r.attributes[m].name
  }

  /** The strings of the nodes begin one behind the other, those of a node's attributes between it and the next node. */
  ghost predicate KeysAscend(nodes: seq<NodeRec>) {
    && (forall i :: 0 <= i < |nodes| ==> AttributesAscend(nodes[i]))
    && (forall i, j :: 0 <= i < j < |nodes| ==> LastKey(nodes[i]) < NodeKey(nodes[j]))
  }

  /** Every node but the document has a string. */
  ghost predicate HaveKeys(nodes: seq<NodeRec>) {
    forall i :: 0 < i < |nodes| ==> NodeKey(nodes[i]) >= 0
  }

  ghost predicate KeysBelow(nodes: seq<NodeRec>, s: nat) {
    && (forall i :: 0 <= i < |nodes| ==> NodeKey(nodes[i]) < s && LastKey(nodes[i]) < s)
    && HaveKeys(nodes)
  }

  /** c is node i or above it. */
  ghost predicate OnPath(nodes: seq<NodeRec>, i: nat, c: nat)
    decreases i
  {
    i < |nodes| && (c == i || (0 <= nodes[i].parent < i && OnPath(nodes, nodes[i].parent, c)))
  }

  /** Every node hangs below the node before it or below one above that: the numbering is in document order. */
  ghost predicate Preorder(nodes: seq<NodeRec>) {
    forall i :: 0 < i < |nodes| ==> nodes[i].parent >= 0 && OnPath(nodes, i - 1, nodes[i].parent)
  }

  /**
   What holds of the nodes once everything in front of position s is read; late says that an attribute was appended to a
   node that was not the newest one, which takes a declaration that is still open.
   */
  ghost predicate Tidy(nodes: seq<NodeRec>, s: nat, late: bool, declarations: bool) {
    && Preorder(nodes) && ParentsNamed(nodes) && KeysBelow(nodes, s) && (KeysAscend(nodes) <==> !late)
    && (late ==> declarations) && (HasDeclaration(nodes) ==> declarations)
  }

  ghost predicate HasDeclaration(nodes: seq<NodeRec>) {
    exists i :: 0 <= i < |nodes| && nodes[i].kind == KDeclaration
  }

  /** Only the document and nodes with names have children. */
  ghost predicate ParentsNamed(nodes: seq<NodeRec>) {
    forall i {:trigger nodes[i].parent} :: 0 < i < |nodes| ==>
      nodes[i].parent == 0 || (0 < nodes[i].parent < i && nodes[nodes[i].parent].name >= 0)
  }

  /** A node that can be the cursor: it is open, and it is the document or has a name. */
  ghost predicate IsCursor(nodes: seq<NodeRec>, c: nat) {
    nodes != [] && c < |nodes| && OnPath(nodes, |nodes| - 1, c) && (c == 0 || nodes[c].name >= 0)
  }

  lemma {:induction false} PathSame(nodes: seq<NodeRec>, nodes': seq<NodeRec>, i: nat, c: nat)
    requires i < |nodes| && i < |nodes'| && forall j :: 0 <= j <= i ==> nodes'[j].parent == nodes[j].parent
    ensures OnPath(nodes', i, c) == OnPath(nodes, i, c)
    decreases i
  {
    if c != i && 0 <= nodes[i].parent < i {
      PathSame(nodes, nodes', nodes[i].parent, c);
    }
  }

  lemma {:induction false} PathUp(nodes: seq<NodeRec>, i: nat, c: nat)
    requires c < |nodes| && OnPath(nodes, i, c) && 0 <= nodes[c].parent < c
    ensures c <= i && OnPath(nodes, i, nodes[c].parent)
    decreases i
  {
    if c != i {
      PathUp(nodes, nodes[i].parent, c);
    } else {
      assert OnPath(nodes, nodes[c].parent, nodes[c].parent);
    }
  }

  lemma PreorderSame(nodes: seq<NodeRec>, nodes': seq<NodeRec>)
    requires Preorder(nodes) && |nodes'| <= |nodes|
    requires forall j :: 0 <= j < |nodes'| ==> nodes'[j].parent == nodes[j].parent
    ensures Preorder(nodes')
  {
    forall i | 0 < i < |nodes'|
      ensures nodes'[i].parent >= 0 && OnPath(nodes', i - 1, nodes'[i].parent)
    {
      PathSame(nodes, nodes', i - 1, nodes[i].parent);
    }
  }

  // Which elements are still open

  /** Every element that has not been closed is the cursor or above it. */
  ghost predicate OpenOnPath(nodes: seq<NodeRec>, closed: set<nat>, c: nat) {
    forall i :: 0 <= i < |nodes| && nodes[i].kind == KElement && i !in closed ==> OnPath(nodes, c, i)
  }

  /** There are no new elements, and kinds and parents are as they were. */
  ghost predicate NoNewElements(was: seq<NodeRec>, now: seq<NodeRec>) {
    && |was| <= |now| && (forall i :: 0 <= i < |was| ==> now[i].kind == was[i].kind && now[i].parent == was[i].parent)
    && forall i :: |was| <= i < |now| ==> now[i].kind != KElement
  }

  lemma OtherAdded(was: seq<NodeRec>, r: NodeRec)
    requires r.kind != KElement
    ensures NoNewElements(was, was) && NoNewElements(was, was + [r])
  {
  }

  lemma StillOpen(was: seq<NodeRec>, now: seq<NodeRec>, closed: set<nat>, c: nat)
    requires OpenOnPath(was, closed, c) && c < |was| && NoNewElements(was, now)
    ensures OpenOnPath(now, closed, c)
  {
    hide OnPath;
    forall i | 0 <= i < |now| && now[i].kind == KElement && i !in closed
      ensures OnPath(now, c, i)
    {
      PathSame(was, now, c, i);
    }
  }

  /** A new node below the cursor becomes the cursor, or is closed at once. */
  lemma OneOpened(was: seq<NodeRec>, now: seq<NodeRec>, closed: set<nat>, c: nat)
    requires OpenOnPath(was, closed, c) && c < |was| && |now| == |was| + 1 && now[|was|].parent == c
    requires forall i :: 0 <= i < |was| ==> now[i].kind == was[i].kind && now[i].parent == was[i].parent
    ensures OpenOnPath(now, closed, |was|) && OpenOnPath(now, closed + {|was|}, c)
  {
    forall i | 0 <= i < |was| && now[i].kind == KElement && i !in closed
      ensures OnPath(now, c, i)
    {
      PathSame(was, now, c, i);
    }
  }

  /** The cursor is closed, or is no element, and its parent becomes the cursor. */
  lemma OneClosed(nodes: seq<NodeRec>, closed: set<nat>, c: nat)
    requires OpenOnPath(nodes, closed, c) && c < |nodes| && 0 <= nodes[c].parent < c
    ensures OpenOnPath(nodes, closed + {c}, nodes[c].parent)
    ensures nodes[c].kind != KElement ==> OpenOnPath(nodes, closed, nodes[c].parent)
  {
  }

  lemma AllAreClosed(nodes: seq<NodeRec>, closed: set<nat>)
    requires OpenOnPath(nodes, closed, 0) && |nodes| > 0 && nodes[0].kind == KDocument
    ensures forall i :: 0 <= i < |nodes| && nodes[i].kind == KElement ==> i in closed
  {
  }

  lemma TidyStart(declarations: bool)
    ensures
      var nodes := [NodeRec(KDocument, -1, -1, -1, [])];
      Tidy(nodes, 0, false, declarations) && IsCursor(nodes, 0)
  {
    hide ParentsNamed, Preorder, KeysAscend, HasDeclaration;
    OneRecord(NodeRec(KDocument, -1, -1, -1, []));
  }

  lemma OneRecord(r: NodeRec)
    requires r.attributes == [] && r.kind != KDeclaration
    ensures ParentsNamed([r]) && Preorder([r]) && KeysAscend([r]) && !HasDeclaration([r]) && HaveKeys([r])
  {
  }

  lemma TidyOn(nodes: seq<NodeRec>, s: nat, s': nat, late: bool, declarations: bool)
    requires Tidy(nodes, s, late, declarations) && s <= s'
    ensures Tidy(nodes, s', late, declarations)
  {
    hide KeysAscend, Preorder, ParentsNamed;
  }

  lemma TidyParts(nodes: seq<NodeRec>, s: nat, late: bool, declarations: bool)
    requires Tidy(nodes, s, late, declarations)
    ensures Preorder(nodes) && HaveKeys(nodes) && (KeysAscend(nodes) <==> !late) && (late ==> declarations)
  {
    hide Preorder, KeysAscend, HaveKeys, ParentsNamed;
  }

  lemma TidyPop(nodes: seq<NodeRec>, c: nat, s: nat, late: bool, declarations: bool)
    requires Tidy(nodes, s, late, declarations) && IsCursor(nodes, c) && 0 < c
    ensures 0 <= nodes[c].parent < c && IsCursor(nodes, nodes[c].parent)
  {
    hide KeysAscend, Preorder, KeysBelow, OnPath;
    PathUp(nodes, |nodes| - 1, c);
  }

  lemma NamedCursor(nodes: seq<NodeRec>, c: nat)
    requires IsCursor(nodes, c) && 0 < c
    ensures nodes[c].name >= 0
  {
    hide OnPath;
  }

  /** A new node with a string that begins at s or behind it. */
  lemma TidyPush(nodes: seq<NodeRec>, c: nat, s: nat, late: bool, declarations: bool, r: NodeRec, s': nat)
    requires Tidy(nodes, s, late, declarations) && IsCursor(nodes, c)
    requires r.parent == c && r.attributes == [] && s <= NodeKey(r) < s' && (r.kind == KDeclaration ==> declarations)
    ensures Tidy(nodes + [r], s', late, declarations) && IsCursor(nodes + [r], c)
    ensures r.name >= 0 ==> IsCursor(nodes + [r], |nodes|)
  {
    hide KeysAscend, KeysBelow, OnPath, Preorder, ParentsNamed, NodeKey, HasDeclaration;
    PushAscends(nodes, s, r);
    PushPreorder(nodes, c, r);
    PushNamed(nodes, c, r);
  }

  lemma PushNamed(nodes: seq<NodeRec>, c: nat, r: NodeRec)
    requires ParentsNamed(nodes) && c < |nodes| && r.parent == c && (c == 0 || nodes[c].name >= 0)
    ensures ParentsNamed(nodes + [r])
    ensures HasDeclaration(nodes + [r]) ==> HasDeclaration(nodes) || r.kind == KDeclaration
  {
    var nodes' := nodes + [r];
    assert forall i :: 0 <= i < |nodes| ==> nodes'[i] == nodes[i];
  }

  lemma PushPreorder(nodes: seq<NodeRec>, c: nat, r: NodeRec)
    requires Preorder(nodes) && nodes != [] && c < |nodes| && OnPath(nodes, |nodes| - 1, c) && r.parent == c
    ensures Preorder(nodes + [r]) && OnPath(nodes + [r], |nodes|, c) && OnPath(nodes + [r], |nodes|, |nodes|)
  {
    var nodes' := nodes + [r];
    PathSame(nodes, nodes', |nodes| - 1, c);
    PushPath(nodes', c);
    hide OnPath;
    forall i | 0 < i < |nodes'|
      ensures nodes'[i].parent >= 0 && OnPath(nodes', i - 1, nodes'[i].parent)
    {
      if i < |nodes| {
        PathSame(nodes, nodes', i - 1, nodes[i].parent);
      }
    }
  }

  lemma PushPath(nodes: seq<NodeRec>, c: nat)
    requires c < |nodes| - 1 && nodes[|nodes| - 1].parent == c
    ensures OnPath(nodes, |nodes| - 1, c) && OnPath(nodes, |nodes| - 1, |nodes| - 1)
  {
    assert OnPath(nodes, c, c);
  }

  lemma PushAscends(nodes: seq<NodeRec>, s: nat, r: NodeRec)
    requires KeysBelow(nodes, s) && r.attributes == [] && s <= NodeKey(r)
    ensures KeysAscend(nodes + [r]) == KeysAscend(nodes)
    ensures forall s': nat :: NodeKey(r) < s' ==> KeysBelow(nodes + [r], s')
  {
    var nodes' := nodes + [r];
    if KeysAscend(nodes') {
      assert forall i :: 0 <= i < |nodes| ==> nodes'[i] == nodes[i];
    }
  }

  /** An attribute more, whose name begins at s: the order is lost exactly when its node is not the newest one. */
  lemma TidyAttribute(nodes: seq<NodeRec>, c: nat, s: nat, late: bool, declarations: bool, rec: AttrRec)
    requires Tidy(nodes, s, late, declarations) && IsCursor(nodes, c) && rec.name == s && 0 < c
    requires c == |nodes| - 1 || nodes[c].kind == KDeclaration
    ensures
      var nodes' := nodes[c := nodes[c].(attributes := nodes[c].attributes + [rec])];
      Tidy(nodes', s + 1, late || c != |nodes| - 1, declarations) && IsCursor(nodes', c)
  {
    hide KeysAscend, KeysBelow, OnPath, Preorder, ParentsNamed, HasDeclaration;
    var r := nodes[c].(attributes := nodes[c].attributes + [rec]);
    var nodes' := nodes[c := r];
    PreorderSame(nodes, nodes');
    PathSame(nodes, nodes', |nodes| - 1, c);
    ShapeSame(nodes, nodes', c);
    AttributeAscends(nodes, c, s, r);
  }

  /** Whether parents are named, and whether there is a declaration, depends on kinds, parents and names. */
  lemma ShapeSame(nodes: seq<NodeRec>, nodes': seq<NodeRec>, c: nat)
    requires ParentsNamed(nodes) && |nodes'| == |nodes| && c < |nodes|
    requires forall j :: 0 <= j < |nodes| ==>
      nodes'[j].parent == nodes[j].parent && nodes'[j].name == nodes[j].name && nodes'[j].kind == nodes[j].kind
    ensures ParentsNamed(nodes') && HasDeclaration(nodes') == HasDeclaration(nodes)
    ensures nodes[c].kind == KDeclaration ==> HasDeclaration(nodes)
  {
    if HasDeclaration(nodes) {
      var i :| 0 <= i < |nodes| && nodes[i].kind == KDeclaration;
      assert nodes'[i].kind == KDeclaration;
    }
  }

  lemma AttributeAscends(nodes: seq<NodeRec>, c: nat, s: nat, r: NodeRec)
    requires KeysBelow(nodes, s) && 0 < c < |nodes| && |r.attributes| == |nodes[c].attributes| + 1
    requires NodeKey(r) == NodeKey(nodes[c]) && r.attributes[..|nodes[c].attributes|] == nodes[c].attributes
    requires LastKey(r) == s
    ensures KeysBelow(nodes[c := r], s + 1)
    ensures KeysAscend(nodes[c := r]) <==> KeysAscend(nodes) && c == |nodes| - 1
  {
    var nodes', k := nodes[c := r], |nodes[c].attributes|;
    var old' := nodes[c];
    assert forall m :: 0 <= m < k ==> r.attributes[m] == r.attributes[..k][m] == old'.attributes[m];
    RecordAscends(old', r);
    if c < |nodes| - 1 {
      assert NodeKey(nodes'[c + 1]) < LastKey(nodes'[c]);
    }
    hide AttributesAscend;
    if KeysAscend(nodes) && c == |nodes| - 1 {
      assert KeysAscend(nodes');
    }
    if KeysAscend(nodes') && c == |nodes| - 1 {
      LastWithout(nodes, c, r);
    }
  }

  lemma RecordAscends(r: NodeRec, r': NodeRec)
    requires |r'.attributes| == |r.attributes| + 1 && NodeKey(r') == NodeKey(r) && LastKey(r) < LastKey(r')
    requires forall m :: 0 <= m < |r.attributes| ==> r'.attributes[m] == r.attributes[m]
    ensures AttributesAscend(r') == AttributesAscend(r)
  {
    assert forall m :: 0 <= m <= |r.attributes| ==> KeyBefore(r', m) == KeyBefore(r, m);
    if AttributesAscend(r') {
      forall m | 0 <= m < |r.attributes|
        ensures KeyBefore(r, m) < r.attributes[m].name
      {
        assert r'.attributes[m] == r.attributes[m];
      }
    }
  }

  lemma LastWithout(nodes: seq<NodeRec>, c: nat, r: NodeRec)
    requires c == |nodes| - 1 && NodeKey(r) == NodeKey(nodes[c]) && AttributesAscend(r) == AttributesAscend(nodes[c])
    requires KeysAscend(nodes[c := r])
    ensures KeysAscend(nodes)
  {
    var nodes' := nodes[c := r];
    hide AttributesAscend;
    forall i | 0 <= i < |nodes|
      ensures AttributesAscend(nodes[i])
    {
      assert AttributesAscend(nodes'[i]);
    }
    forall i, j | 0 <= i < j < |nodes|
      ensures LastKey(nodes[i]) < NodeKey(nodes[j])
    {
      assert LastKey(nodes'[i]) < NodeKey(nodes'[j]);
    }
  }

  /** A change that leaves alone where names and nameless nodes begin. */
  lemma TidySame(nodes: seq<NodeRec>, c: nat, s: nat, late: bool, declarations: bool, r: NodeRec)
    requires Tidy(nodes, s, late, declarations) && IsCursor(nodes, c)
    requires r.kind == nodes[c].kind && r.parent == nodes[c].parent && r.name == nodes[c].name >= 0
    requires |r.attributes| == |nodes[c].attributes|
    requires forall m :: 0 <= m < |r.attributes| ==> r.attributes[m].name == nodes[c].attributes[m].name
    ensures Tidy(nodes[c := r], s, late, declarations) && IsCursor(nodes[c := r], c)
  {
    hide KeysAscend, KeysBelow, OnPath, Preorder, ParentsNamed, HasDeclaration, NodeKey;
    var nodes' := nodes[c := r];
    PreorderSame(nodes, nodes');
    PathSame(nodes, nodes', |nodes| - 1, c);
    ShapeSame(nodes, nodes', c);
    NamesSame(nodes, c, r);
    KeysSame(nodes, nodes', s);
  }

  lemma NamesSame(nodes: seq<NodeRec>, c: nat, r: NodeRec)
    requires c < |nodes| && r.name == nodes[c].name >= 0 && |r.attributes| == |nodes[c].attributes|
    requires forall m :: 0 <= m < |r.attributes| ==> r.attributes[m].name == nodes[c].attributes[m].name
    ensures forall i :: 0 <= i < |nodes| ==>
      && NodeKey(nodes[c := r][i]) == NodeKey(nodes[i]) && |nodes[c := r][i].attributes| == |nodes[i].attributes|
      && forall m :: 0 <= m < |nodes[i].attributes| ==>
           nodes[c := r][i].attributes[m].name == nodes[i].attributes[m].name
  {
  }

  lemma KeysSame(nodes: seq<NodeRec>, nodes': seq<NodeRec>, s: nat)
    requires |nodes'| == |nodes|
    requires forall i :: 0 <= i < |nodes| ==>
      && NodeKey(nodes'[i]) == NodeKey(nodes[i]) && |nodes'[i].attributes| == |nodes[i].attributes|
      && forall m :: 0 <= m < |nodes[i].attributes| ==> nodes'[i].attributes[m].name == nodes[i].attributes[m].name
    ensures KeysBelow(nodes', s) == KeysBelow(nodes, s) && KeysAscend(nodes') == KeysAscend(nodes)
  {
    forall i | 0 <= i < |nodes|
      ensures LastKey(nodes'[i]) == LastKey(nodes[i]) && NodeKey(nodes'[i]) == NodeKey(nodes[i])
      ensures AttributesAscend(nodes'[i]) == AttributesAscend(nodes[i])
    {
      RecordSame(nodes[i], nodes'[i]);
    }
    hide AttributesAscend, LastKey, NodeKey;
    BelowSame(nodes, nodes', s);
    if KeysAscend(nodes) {
      AscendSame(nodes, nodes');
    }
    if KeysAscend(nodes') {
      AscendSame(nodes', nodes);
    }
  }

  lemma RecordSame(r: NodeRec, r': NodeRec)
    requires NodeKey(r') == NodeKey(r) && |r'.attributes| == |r.attributes|
    requires forall m :: 0 <= m < |r.attributes| ==> r'.attributes[m].name == r.attributes[m].name
    ensures LastKey(r') == LastKey(r) && AttributesAscend(r') == AttributesAscend(r)
  {
    assert forall m :: 0 <= m <= |r.attributes| ==> KeyBefore(r', m) == KeyBefore(r, m);
    if AttributesAscend(r') {
      forall m | 0 <= m < |r.attributes|
        ensures KeyBefore(r, m) < r.attributes[m].name
      {
        assert KeyBefore(r', m) < r'.attributes[m].name;
      }
    }
  }

  lemma BelowSame(nodes: seq<NodeRec>, nodes': seq<NodeRec>, s: nat)
    requires |nodes'| == |nodes| && forall i :: 0 <= i < |nodes| ==>
      LastKey(nodes'[i]) == LastKey(nodes[i]) && NodeKey(nodes'[i]) == NodeKey(nodes[i])
    ensures KeysBelow(nodes', s) == KeysBelow(nodes, s)
  {
  }

  lemma AscendSame(nodes: seq<NodeRec>, nodes': seq<NodeRec>)
    requires |nodes'| == |nodes| && KeysAscend(nodes)
    requires forall i :: 0 <= i < |nodes| ==>
      && LastKey(nodes'[i]) == LastKey(nodes[i]) && NodeKey(nodes'[i]) == NodeKey(nodes[i])
      && AttributesAscend(nodes'[i]) == AttributesAscend(nodes[i])
    ensures KeysAscend(nodes')
  {
  }
}
