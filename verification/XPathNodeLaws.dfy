/**
 What the axes, the node tests and the functions on nodes and node sets promise (sections 2.2, 2.3, 4.1 to 4.4 and 5 of
 XPath 1.0), stated with parents, document order and attributes only.
 */
module XPathNodeLaws {

  import opened Common
  import opened XmlTree
  import opened XPathEval
  import opened XPathLaws
  import opened XPathLibrary
  import opened XPathLists
  import opened XPathModel

  // The axes (section 2.2)

  /** a is the parent of i, or the parent of its parent, and so on. */
  ghost predicate Above(t: Tree, a: nat, i: nat)
    requires t.Valid()
    decreases i
  {
    0 < i < t.Count() && (t.parent[i] == a || Above(t, a, t.parent[i]))
  }

  lemma {:induction false} AboveIs(t: Tree, a: nat, i: nat)
    requires t.Valid() && a < t.Count() && i < t.Count()
    ensures Above(t, a, i) <==> a < i < a + t.size[a]
    decreases i
  {
    hide Tree.Nested;
    if i > 0 {
      t.ParentEnds(i);
      AboveIs(t, a, t.parent[i]);
      if a < i < a + t.size[a] {
        t.AncestorOfParent(a, i);
      } else if a < t.parent[i] < a + t.size[a] {
        t.SubtreeInside(a, t.parent[i]);
      }
    }
  }

  /** Two nodes with one parent. */
  ghost predicate Siblings(t: Tree, i: nat, j: nat)
    requires t.Valid() && i < t.Count() && j < t.Count()
  {
    0 < i && 0 < j && t.parent[i] == t.parent[j]
  }

  /** Each axis is what its name says: parents and the order of the document decide. */
  lemma AxesAre(t: Tree, i: nat, j: nat)
    requires t.Valid() && i < t.Count() && j < t.Count()
    ensures OnAxis(t, Child, i, j) <==> 0 < j && t.parent[j] == i
    ensures OnAxis(t, Parent, i, j) <==> OnAxis(t, Child, j, i)
    ensures OnAxis(t, Descendant, i, j) <==> Above(t, i, j)
    ensures OnAxis(t, Ancestor, i, j) <==> Above(t, j, i)
    ensures OnAxis(t, Self, i, j) <==> i == j
    ensures OnAxis(t, DescendantOrSelf, i, j) <==> i == j || Above(t, i, j)
    ensures OnAxis(t, AncestorOrSelf, i, j) <==> i == j || Above(t, j, i)
    ensures OnAxis(t, Following, i, j) <==> i < j && !Above(t, i, j)
    ensures OnAxis(t, Preceding, i, j) <==> j < i && !Above(t, j, i)
    ensures OnAxis(t, FollowingSibling, i, j) <==> i < j && Siblings(t, i, j)
    ensures OnAxis(t, PrecedingSibling, i, j) <==> j < i && Siblings(t, i, j)
    ensures !OnAxis(t, AttributeAxis, i, j) && !OnAxis(t, Namespace, i, j)
  {
    hide Tree.Nested, Above;
    AboveIs(t, i, j);
    AboveIs(t, j, i);
  }

  /** An attribute's parent is its element; it comes after its element and before the rest, and nothing is below it. */
  lemma AttributeAxesAre(t: Tree, p: nat, j: nat)
    requires t.Valid() && p < t.Count() && j < t.Count()
    ensures OnAttributeAxis(t, Parent, p, j) <==> j == p
    ensures OnAttributeAxis(t, Ancestor, p, j) <==> j == p || Above(t, j, p)
    ensures OnAttributeAxis(t, AncestorOrSelf, p, j) <==> j == p || Above(t, j, p)
    ensures OnAttributeAxis(t, Following, p, j) <==> p < j
    ensures OnAttributeAxis(t, Preceding, p, j) <==> j < p && !Above(t, j, p)
    ensures forall axis :: axis in {Self, Child, Descendant, DescendantOrSelf, FollowingSibling, PrecedingSibling} ==>
      !OnAttributeAxis(t, axis, p, j)
  {
    hide Tree.Nested, Above;
    AboveIs(t, j, p);
  }

  // Node tests (section 2.3)

  /** What a node of each kind passes. */
  lemma TestsByKind(d: NodeData)
    ensures Accepts(TestNode, d)
    ensures Accepts(TestAll, d) <==> d.kind == KElement
    ensures Accepts(TestText, d) <==> d.kind in {KPcdata, KCdata}
    ensures Accepts(TestComment, d) <==> d.kind == KComment
    ensures Accepts(TestPi, d) <==> d.kind == KPi
    ensures forall name :: name != "" ==> (Accepts(TestName(name), d) <==> d.kind == KElement && d.name == name)
    ensures forall name :: name != "" ==> (Accepts(TestPiNamed(name), d) <==> d.kind == KPi && d.name == name)
    ensures forall prefix, rest :: d.kind == KElement && d.name == prefix + ":" + rest ==>
      Accepts(TestNamespace(prefix + ":"), d)
  {
    forall prefix, rest | d.kind == KElement && d.name == prefix + ":" + rest
      ensures Accepts(TestNamespace(prefix + ":"), d)
    {
      assert d.name[..|prefix + ":"|] == prefix + ":";
    }
  }

  /** Attributes are selected by name; declarations of namespaces are none. */
  lemma AttributeTests(a: Attribute)
    ensures IsXPathAttribute(a.name) <==> a.name != "xmlns" && forall rest :: a.name != "xmlns:" + rest
    ensures AcceptsAttribute(TestNode, a) <==> IsXPathAttribute(a.name)
    ensures forall name :: AcceptsAttribute(TestName(name), a) <==> IsXPathAttribute(a.name) && a.name == name
    ensures !AcceptsAttribute(TestText, a) && !AcceptsAttribute(TestComment, a) && !AcceptsAttribute(TestPi, a)
  {
    var n := a.name;
    if "xmlns" <= n && |n| > 5 && n[5] == ':' {
      assert n == "xmlns:" + n[6..];
    }
    forall rest | n == "xmlns:" + rest
      ensures "xmlns" <= n && n[5] == ':'
    {
      assert n == "xmlns" + (":" + rest);
    }
  }

  // Attributes that are inherited

  /** The first attribute of that name at node i has that value. */
  ghost predicate Has(t: Tree, i: nat, name: string, value: string) {
    i < |t.data| && exists k :: 0 <= k < |t.data[i].attributes| && t.data[i].attributes[k] == Attribute(name, value) &&
                                 forall j :: 0 <= j < k ==> t.data[i].attributes[j].name != name
  }

  ghost predicate Lacks(t: Tree, i: nat, name: string) {
    i < |t.data| && forall a :: a in t.data[i].attributes ==> a.name != name
  }

  /** The node itself or the nearest one above it that has such an attribute decides. */
  ghost predicate NearestHas(t: Tree, i: nat, name: string, value: string)
    requires t.Valid()
  {
    exists a: nat :: (a == i || Above(t, a, i)) && Has(t, a, name, value) &&
                     forall b: nat :: (b == i || Above(t, b, i)) && a < b ==> Lacks(t, b, name)
  }

  ghost predicate NoneHas(t: Tree, i: nat, name: string)
    requires t.Valid()
  {
    Lacks(t, i, name) && forall b: nat :: Above(t, b, i) ==> Lacks(t, b, name)
  }

  lemma AttributeFound(t: Tree, i: nat, name: string)
    requires i < |t.data|
    ensures
      var k := AttributeNamed(t.data[i].attributes, name);
      if k < |t.data[i].attributes| then Has(t, i, name, t.data[i].attributes[k].value) && !Lacks(t, i, name)
      else Lacks(t, i, name)
  {
    var attributes := t.data[i].attributes;
    var k := AttributeNamed(attributes, name);
    if k < |attributes| {
      assert attributes[k] == Attribute(name, attributes[k].value) && attributes[k] in attributes;
    }
  }

  lemma {:induction false} InheritedIs(t: Tree, i: nat, name: string)
    requires t.Valid() && i < t.Count()
    ensures
      if Inherited(t, i, name).Some? then NearestHas(t, i, name, Inherited(t, i, name).value) else NoneHas(t, i, name)
    decreases i
  {
    hide Tree.Nested, Has, Lacks;
    AttributeFound(t, i, name);
    if AttributeNamed(t.data[i].attributes, name) < |t.data[i].attributes| {
      assert Has(t, i, name, Inherited(t, i, name).value);
      forall b: nat | b == i || Above(t, b, i)
        ensures b <= i
      {
        if b != i {
          AboveIsBelow(t, b, i);
        }
      }
    } else if i > 0 {
      t.ParentEnds(i);
      var p: nat := t.parent[i];
      InheritedIs(t, p, name);
      forall b: nat
        ensures Above(t, b, i) <==> b == p || Above(t, b, p)
      {
      }
      if Inherited(t, i, name).Some? {
        var v := Inherited(t, i, name).value;
        var a: nat :| (a == p || Above(t, a, p)) && Has(t, a, name, v) &&
                      forall b: nat :: (b == p || Above(t, b, p)) && a < b ==> Lacks(t, b, name);
        assert a == i || Above(t, a, i);
      }
    }
  }

  lemma {:induction false} AboveIsBelow(t: Tree, a: nat, i: nat)
    requires t.Valid() && Above(t, a, i)
    ensures a < i
    decreases i
  {
    hide Tree.Nested;
    t.ParentEnds(i);
    if t.parent[i] != a {
      AboveIsBelow(t, a, t.parent[i]);
    }
  }

  // Names (section 4.1)

  /** local-name() is what comes behind the first colon of the name, or the whole name. */
  lemma LocalNames(t: Tree, x: Item)
    ensures
      var name, local := NameOfItem(t, QualifiedName, x), NameOfItem(t, LocalName, x);
      && (':' !in name ==> local == name)
      && forall p, l :: name == p + ":" + l && ':' !in p ==> local == l
    ensures InDoc(t, x) ==>
      NameOfItem(t, QualifiedName, x) ==
      if x.attr == -1 then t.data[x.node].name else t.data[x.node].attributes[x.attr].name
  {
    var name := NameOfItem(t, QualifiedName, x);
    forall p, l | name == p + ":" + l && ':' !in p
      ensures NameOfItem(t, LocalName, x) == l
    {
      FirstColon(name, p, l);
    }
  }

  lemma FirstColon(name: string, p: string, l: string)
    requires name == p + ":" + l && ':' !in p
    ensures IndexOf(name, ':') == |p| && name[|p| + 1..] == l
  {
    assert name[..|p|] == p;
    IndexAt(name, ':', |p|);
  }

  lemma {:induction false} IndexAt(s: string, c: char, k: nat)
    requires k < |s| && s[k] == c && c !in s[..k]
    ensures IndexOf(s, c) == k
  {
    if k > 0 {
      assert s[..k] == [s[0]] + s[1..][..k - 1];
      IndexAt(s[1..], c, k - 1);
    }
  }

  /** namespace-uri(): the value of the nearest declaration of the prefix; without one, of the default of elements. */
  lemma NamespaceIs(t: Tree, x: Item, p: string, l: string)
    requires t.Valid() && InDoc(t, x) && ':' !in p
    ensures NameOfItem(t, QualifiedName, x) == p + ":" + l ==>
      DeclaredAs(t, x.node, "xmlns:" + p, NameOfItem(t, NamespaceUri, x))
    ensures ':' !in NameOfItem(t, QualifiedName, x) ==>
      if x.attr == -1 then DeclaredAs(t, x.node, "xmlns", NameOfItem(t, NamespaceUri, x))
      else NameOfItem(t, NamespaceUri, x) == ""
  {
    hide Tree.Nested, NearestHas, NoneHas, Inherited;
    var name := NameOfItem(t, QualifiedName, x);
    if name == p + ":" + l {
      FirstColon(name, p, l);
      assert name[..|p|] == p;
      InheritedIs(t, x.node, "xmlns:" + p);
    } else if ':' !in name {
      InheritedIs(t, x.node, "xmlns");
    }
  }

  ghost predicate DeclaredAs(t: Tree, i: nat, name: string, value: string)
    requires t.Valid()
  {
    NearestHas(t, i, name, value) || (NoneHas(t, i, name) && value == "")
  }

  // lang() (section 4.3)

  const UPPER := "ABCDEFGHIJKLMNOPQRSTUVWXYZ"
  const LOWER := "abcdefghijklmnopqrstuvwxyz"

  function Lower(s: string): (r: string)
    ensures |r| == |s|
  {
    seq(|s|, i requires 0 <= i < |s| => LowerCase(s[i]))
  }

  lemma LowerIs(c: char)
    ensures c !in UPPER ==> LowerCase(c) == c
    ensures forall k :: 0 <= k < 26 ==> LowerCase(UPPER[k]) == LOWER[k]
  {
    forall k: nat | k < 26
      ensures LowerCase(UPPER[k]) == LOWER[k]
    {
      LetterAt(k);
    }
    if 'A' <= c <= 'Z' {
      LetterAt(c as int - 'A' as int);
      assert UPPER[c as int - 'A' as int] == c;
    }
  }

  lemma LetterAt(k: nat)
    requires k < 26
    ensures UPPER[k] == 'A' + k as char && LOWER[k] == 'a' + k as char
  {
  }

  /** lang() holds of a node whose nearest xml:lang is the language or begins with it and a hyphen, in any case. */
  lemma LangIs(t: Tree, x: Item, lang: string)
    requires t.Valid() && InDoc(t, x)
    ensures HasLanguage(t, x, lang) <==>
      x.attr == -1 &&
      exists v :: NearestHas(t, x.node, "xml:lang", v) && (Lower(v) == Lower(lang) || Lower(lang) + "-" <= Lower(v))
  {
    hide Tree.Nested, NearestHas, NoneHas, Inherited;
    InheritedIs(t, x.node, "xml:lang");
    var r := Inherited(t, x.node, "xml:lang");
    if r.Some? {
      LanguageIs(r.value, lang);
      forall v | NearestHas(t, x.node, "xml:lang", v)
        ensures v == r.value
      {
        NearestOnce(t, x.node, "xml:lang", v, r.value);
      }
    } else {
      forall v
        ensures !NearestHas(t, x.node, "xml:lang", v)
      {
        NotBoth(t, x.node, "xml:lang", v);
      }
    }
  }

  lemma LanguageIs(v: string, lang: string)
    ensures IsLanguage(v, lang) <==> Lower(v) == Lower(lang) || Lower(lang) + "-" <= Lower(v)
  {
    var a, b := Lower(v), Lower(lang);
    forall c: char
      ensures LowerCase(c) == '-' <==> c == '-'
    {
    }
    if |lang| <= |v| {
      assert (forall i :: 0 <= i < |lang| ==> LowerCase(v[i]) == LowerCase(lang[i])) <==> a[..|b|] == b by {
        if a[..|b|] == b {
          forall i | 0 <= i < |lang|
            ensures LowerCase(v[i]) == LowerCase(lang[i])
          {
            assert a[..|b|][i] == b[i];
          }
        }
      }
      if |lang| < |v| {
        assert b + "-" <= a <==> a[..|b|] == b && a[|b|] == '-' by {
          if b + "-" <= a {
            assert a[..|b|] == b && a[|b|] == (b + "-")[|b|];
          }
        }
      }
    }
  }

  lemma NearestOnce(t: Tree, i: nat, name: string, v: string, u: string)
    requires t.Valid() && NearestHas(t, i, name, v) && NearestHas(t, i, name, u)
    ensures v == u
  {
    hide Tree.Nested, Above;
    var a: nat :| (a == i || Above(t, a, i)) && Has(t, a, name, v) &&
                  forall b: nat :: (b == i || Above(t, b, i)) && a < b ==> Lacks(t, b, name);
    var c: nat :| (c == i || Above(t, c, i)) && Has(t, c, name, u) &&
                  forall b: nat :: (b == i || Above(t, b, i)) && c < b ==> Lacks(t, b, name);
    HasNotLacks(t, a, name, v);
    HasNotLacks(t, c, name, u);
  }

  lemma HasNotLacks(t: Tree, i: nat, name: string, v: string)
    requires Has(t, i, name, v)
    ensures !Lacks(t, i, name)
  {
  }

  lemma NotBoth(t: Tree, i: nat, name: string, v: string)
    requires t.Valid() && NoneHas(t, i, name)
    ensures !NearestHas(t, i, name, v)
  {
    hide Tree.Nested, Above;
    if NearestHas(t, i, name, v) {
      var a: nat :| (a == i || Above(t, a, i)) && Has(t, a, name, v);
      HasNotLacks(t, a, name, v);
    }
  }

  // String-values (section 5)

  function Values(t: Tree, nodes: seq<nat>): (r: seq<string>)
    requires forall k :: 0 <= k < |nodes| ==> nodes[k] < |t.data|
    ensures |r| == |nodes|
  {
    seq(|nodes|, k requires 0 <= k < |nodes| => t.data[nodes[k]].value)
  }

  /** The string-value of the document or an element is made of the text nodes below it, in document order. */
  lemma StringValueIs(t: Tree, i: nat)
    requires t.Valid() && i < t.Count()
    ensures forall k :: 0 <= k < |Listing(t, Descendant, TestText, i)| ==>
      Listing(t, Descendant, TestText, i)[k] < |t.data|
    ensures t.data[i].kind in {KDocument, KElement} ==>
      ItemString(t, NodeItem(i)) == t.data[i].value + Joined(Values(t, Listing(t, Descendant, TestText, i)))
    ensures t.data[i].kind in {KPcdata, KCdata, KComment, KPi} ==> ItemString(t, NodeItem(i)) == t.data[i].value
  {
    hide Tree.Nested, OnAxis;
    var s := Selected(t, Descendant, TestText, i);
    var end := i + t.size[i];
    UpBounded(s, t.Count());
    TextsBetween(t, i, s, end);
    NothingBeyond(t, i, s, end);
  }

  lemma {:induction false} UpBounded(s: set<nat>, hi: nat)
    ensures forall k :: 0 <= k < |Up(s, hi)| ==> Up(s, hi)[k] < hi
  {
    if hi > 0 {
      UpBounded(s, hi - 1);
    }
  }

  lemma NothingBeyond(t: Tree, i: nat, s: set<nat>, end: nat)
    requires t.Valid() && i < t.Count() && s == Selected(t, Descendant, TestText, i) && end == i + t.size[i]
    ensures end <= t.Count() && Up(s, t.Count()) == Up(s, end)
  {
    hide Tree.Nested;
    UpSkip(s, end, t.Count());
  }

  lemma {:induction false} TextsBetween(t: Tree, i: nat, s: set<nat>, hi: nat)
    requires t.Valid() && i < t.Count() && s == Selected(t, Descendant, TestText, i)
    requires i < hi <= i + t.size[i] <= t.Count()
    ensures forall k :: 0 <= k < |Up(s, hi)| ==> Up(s, hi)[k] < |t.data|
    ensures Joined(Values(t, Up(s, hi))) == DataBetween(t, i + 1, hi)
    decreases hi
  {
    hide Tree.Nested, Joined, Values, Up, DataBetween, OnAxis, Accepts;
    UpBounded(s, hi);
    if hi == i + 1 {
      NoTextYet(t, i, s);
    } else {
      UpBounded(s, hi - 1);
      TextsBetween(t, i, s, hi - 1);
      if hi - 1 in s {
        OneMoreValue(t, Up(s, hi - 1), hi - 1);
      }
      OneMore(s, hi);
      NextText(t, i, s, hi);
    }
  }

  lemma NoTextYet(t: Tree, i: nat, s: set<nat>)
    requires t.Valid() && i < t.Count() && s == Selected(t, Descendant, TestText, i)
    ensures Up(s, i + 1) == [] && Joined(Values(t, [])) == "" && DataBetween(t, i + 1, i + 1) == ""
  {
    hide Tree.Nested;
    UpSkip(s, 0, i + 1);
    NothingJoined();
    assert Values(t, []) == [];
  }

  lemma NextText(t: Tree, i: nat, s: set<nat>, hi: nat)
    requires t.Valid() && i < t.Count() && s == Selected(t, Descendant, TestText, i)
    requires i + 1 < hi <= i + t.size[i] <= t.Count()
    ensures DataBetween(t, i + 1, hi) ==
      DataBetween(t, i + 1, hi - 1) + if hi - 1 in s then t.data[hi - 1].value else ""
  {
    hide Tree.Nested;
  }

  lemma OneMore(s: set<nat>, hi: nat)
    requires hi > 0
    ensures Up(s, hi) == if hi - 1 in s then Up(s, hi - 1) + [hi - 1] else Up(s, hi - 1)
  {
    assert Up(s, hi - 1) + [] == Up(s, hi - 1);
  }

  lemma OneMoreValue(t: Tree, nodes: seq<nat>, j: nat)
    requires j < |t.data| && forall k :: 0 <= k < |nodes| ==> nodes[k] < |t.data|
    ensures forall k :: 0 <= k < |nodes + [j]| ==> (nodes + [j])[k] < |t.data|
    ensures Joined(Values(t, nodes + [j])) == Joined(Values(t, nodes)) + t.data[j].value
  {
    hide Joined;
    var all := Values(t, nodes + [j]);
    assert all == Values(t, nodes) + [t.data[j].value];
    LastJoined(Values(t, nodes), t.data[j].value);
  }

  lemma LastJoined(strings: seq<string>, last: string)
    ensures Joined(strings + [last]) == Joined(strings) + last
  {
    assert (strings + [last])[..|strings|] == strings;
  }

  // sum() (section 4.4)

  /** The sum of no nodes is zero, of one node its number, and of two sets without a common node that of their sums. */
  lemma SumLaws(w: World, a: set<Item>, b: set<Item>, x: Item)
    ensures SetSum(w, {}) == Finite(0.0)
    ensures SetSum(w, {x}) == Plus(Finite(0.0), w.toNumber(Text(w, x)))
    ensures a !! b ==> SetSum(w, a + b) == Plus(SetSum(w, a), SetSum(w, b))
  {
    hide ListSum, Plus;
    SumOfList(w, [x], {x});
    OneAdded(w, x);
    if a !! b {
      var p, q := Ordered(a), Ordered(b);
      OrderedExact(a);
      OrderedExact(b);
      AllElements(p, a);
      AllElements(q, b);
      AscendingNoRepeats(p);
      AscendingNoRepeats(q);
      BothDistinct(p, q, a, b);
      SumOfList(w, p + q, a + b);
      SumSplit(w, p, q);
    }
  }

  lemma OneAdded(w: World, x: Item)
    ensures ListSum(w, []) == Finite(0.0) && ListSum(w, [x]) == Plus(Finite(0.0), w.toNumber(Text(w, x)))
  {
    assert [x][..0] == [];
  }

  lemma BothDistinct(p: seq<Item>, q: seq<Item>, a: set<Item>, b: set<Item>)
    requires Distinct(p) && Distinct(q) && a !! b && Elements(p) == a && Elements(q) == b
    ensures Distinct(p + q) && Elements(p + q) == a + b
  {
    forall i, j | 0 <= i < j < |p + q|
      ensures (p + q)[i] != (p + q)[j]
    {
      assert i < |p| ==> p[i] in Elements(p);
      assert j >= |p| ==> q[j - |p|] in Elements(q);
    }
  }

  lemma SumOfList(w: World, list: seq<Item>, s: set<Item>)
    requires Elements(list) == s && Distinct(list)
    ensures ListSum(w, list) == SetSum(w, s)
  {
    assert forall x :: x in s ==> x in list;
    SumCovered(w, list, s);
  }

  // translate() (section 4.2)

  /** Character by character: one that is not in the first string stays; its first occurrence there decides. */
  lemma TranslateLaws(s: string, u: string, c: char, from: string, to: string)
    ensures TranslateText(s + u, from, to) == TranslateText(s, from, to) + TranslateText(u, from, to)
    ensures TranslateText("", from, to) == ""
    ensures c !in from ==> TranslateText([c], from, to) == [c]
    ensures forall k :: 0 <= k < |from| && from[k] == c && c !in from[..k] ==>
      TranslateText([c], from, to) == if k < |to| then [to[k]] else ""
  {
    TranslateJoins(s, u, from, to);
    assert [c][..0] == "";
    forall k | 0 <= k < |from| && from[k] == c && c !in from[..k]
      ensures IndexOf(from, c) == k
    {
      IndexAt(from, c, k);
    }
  }

  lemma {:induction false} TranslateJoins(s: string, u: string, from: string, to: string)
    ensures TranslateText(s + u, from, to) == TranslateText(s, from, to) + TranslateText(u, from, to)
    decreases |u|
  {
    if u == "" {
      assert s + u == s;
    } else {
      TranslateJoins(s, u[..|u| - 1], from, to);
      assert (s + u)[..|s + u| - 1] == s + u[..|u| - 1];
    }
  }

  // Predicates that pick one node (section 2.4)

  function OnePredicate(e: Expr): Predicates {
    MorePredicates(e, ClassDefault, NoPredicates)
  }

  function StepWith(axis: Axis, test: NodeTest, e: Expr): Expr {
    Step(None, axis, test, OnePredicate(e))
  }

  /** The set of the k-th node of a list, counted from one. */
  ghost function Nth(list: seq<Item>, k: int): set<Item> {
    if 1 <= k <= |list| then {list[k - 1]} else {}
  }

  ghost predicate HoldsOnlyAt(w: World, p: Expr, list: seq<Item>, k: int)
    requires w.t.Valid()
  {
    forall j :: 0 <= j < |list| ==> (Holds(w, p, Context(list[j], j + 1, |list|)) <==> j + 1 == k)
  }

  lemma {:induction false} KeptAt(w: World, p: Expr, list: seq<Item>, m: nat, k: int)
    requires w.t.Valid() && m <= |list| && HoldsOnlyAt(w, p, list, k)
    ensures Kept(w, p, list, m) == if 1 <= k <= m then [list[k - 1]] else []
    decreases m
  {
    hide Holds, Tree.Valid;
    if m > 0 {
      KeptAt(w, p, list, m - 1, k);
    }
  }

  lemma StepPicks(w: World, axis: Axis, test: NodeTest, e: Expr, c: Context, k: int)
    requires w.t.Valid() && HoldsOnlyAt(w, e, StepList(w.t, axis, test, c.x), k)
    ensures Meaning(w, StepWith(axis, test, e), c) == VNodes(Nth(StepList(w.t, axis, test, c.x), k))
  {
    hide HoldsOnlyAt, Tree.Valid, StepList, Kept;
    var list := StepList(w.t, axis, test, c.x);
    KeptAt(w, e, list, |list|, k);
    SurvivesOne(w, e, list);
    UnionOfOne(w, axis, test, OnePredicate(e), c.x);
  }

  lemma SurvivesOne(w: World, e: Expr, list: seq<Item>)
    requires w.t.Valid()
    ensures Surviving(w, OnePredicate(e), list) == Kept(w, e, list, |list|)
  {
    hide Tree.Valid, Kept;
  }

  /** A step from one node. */
  lemma UnionOfOne(w: World, axis: Axis, test: NodeTest, ps: Predicates, x: Item)
    requires w.t.Valid()
    ensures StepUnion(w, axis, test, ps, [x]) == Elements(Surviving(w, ps, StepList(w.t, axis, test, x)))
  {
    hide Tree.Valid, StepList, Surviving;
    assert [x][..0] == [];
  }

  /** [k] picks the k-th node in the order of the axis, [position() = k] does too, and [last()] picks the last one. */
  lemma PositionsPick(w: World, axis: Axis, test: NodeTest, k: int, c: Context)
    requires w.t.Valid()
    ensures
      var list, number := StepList(w.t, axis, test, c.x), NumberConstant(Finite(k as real));
      && Meaning(w, StepWith(axis, test, number), c) == VNodes(Nth(list, k))
      && Meaning(w, StepWith(axis, test, Compare(CmpEq, Position, number)), c) == VNodes(Nth(list, k))
      && Meaning(w, StepWith(axis, test, Last), c) == VNodes(Nth(list, |list|))
      && Meaning(w, StepWith(axis, test, Compare(CmpEq, Position, Last)), c) == VNodes(Nth(list, |list|))
  {
    hide Tree.Valid, StepList, Meaning, Holds, StepWith;
    var list, number := StepList(w.t, axis, test, c.x), NumberConstant(Finite(k as real));
    forall j | 0 <= j < |list|
      ensures
        var d := Context(list[j], j + 1, |list|);
        && (Holds(w, number, d) <==> j + 1 == k) && (Holds(w, Compare(CmpEq, Position, number), d) <==> j + 1 == k)
        && (Holds(w, Last, d) <==> j + 1 == |list|)
        && (Holds(w, Compare(CmpEq, Position, Last), d) <==> j + 1 == |list|)
    {
      PositionHolds(w, k, Context(list[j], j + 1, |list|));
    }
    StepPicks(w, axis, test, number, c, k);
    StepPicks(w, axis, test, Compare(CmpEq, Position, number), c, k);
    StepPicks(w, axis, test, Last, c, |list|);
    StepPicks(w, axis, test, Compare(CmpEq, Position, Last), c, |list|);
  }

  lemma PositionHolds(w: World, k: int, d: Context)
    requires w.t.Valid()
    ensures
      var number := NumberConstant(Finite(k as real));
      && (Holds(w, number, d) <==> d.pos == k) && (Holds(w, Compare(CmpEq, Position, number), d) <==> d.pos == k)
      && (Holds(w, Last, d) <==> d.pos == d.size) && (Holds(w, Compare(CmpEq, Position, Last), d) <==> d.pos == d.size)
  {
    hide Tree.Valid;
    EqualHolds(w, Position, NumberConstant(Finite(k as real)), d);
    EqualHolds(w, Position, Last, d);
  }

  /** Two numbers that are compared. */
  lemma EqualHolds(w: World, a: Expr, b: Expr, d: Context)
    requires w.t.Valid() && Meaning(w, a, d).VNum? && Meaning(w, b, d).VNum?
    ensures Holds(w, Compare(CmpEq, a, b), d) <==> NumberEq(Meaning(w, a, d).n, Meaning(w, b, d).n)
  {
    hide Tree.Valid;
  }

  // A query of the tests: the elements without an attribute

  /** not(@name) is true of a node exactly if none of its attributes has the name. */
  lemma WithoutAttribute(w: World, name: string, c: Context)
    requires w.t.Valid() && InDoc(w.t, c.x) && c.x.attr == -1
    ensures
      Truth(w, Call(FNot, One(Step(None, AttributeAxis, TestName(name), NoPredicates))), c) <==>
      forall a :: a in w.t.data[c.x.node].attributes && IsXPathAttribute(a.name) ==> a.name != name
  {
    hide Tree.Valid, Meaning, AttributeList, IsXPathAttribute;
    var step := Step(None, AttributeAxis, TestName(name), NoPredicates);
    NotNegates(w, step, c);
    AttributeStep(w, name, c);
    var list, attributes := AttributeList(w.t, c.x.node, TestName(name), 0), w.t.data[c.x.node].attributes;
    AttributesListed(w.t, c.x.node, TestName(name), 0);
    SomeElement(list);
    assert Truth(w, step, c) <==> list != [];
    if list == [] {
      forall a | a in attributes && IsXPathAttribute(a.name)
        ensures a.name != name
      {
        var j :| 0 <= j < |attributes| && attributes[j] == a;
        assert !AcceptsAttribute(TestName(name), attributes[j]);
      }
    } else {
      var j :| 0 <= j < |attributes| && AcceptsAttribute(TestName(name), attributes[j]);
      assert attributes[j] in attributes;
    }
  }

  lemma SomeElement(list: seq<Item>)
    ensures Elements(list) == {} <==> list == []
  {
    if list != [] {
      assert list[0] in Elements(list);
    }
  }

  lemma AttributeStep(w: World, name: string, c: Context)
    requires w.t.Valid() && InDoc(w.t, c.x) && c.x.attr == -1
    ensures Meaning(w, Step(None, AttributeAxis, TestName(name), NoPredicates), c) ==
      VNodes(Elements(AttributeList(w.t, c.x.node, TestName(name), 0)))
  {
    hide Tree.Valid, AttributeList;
    UnionOfOne(w, AttributeAxis, TestName(name), NoPredicates, c.x);
  }

  lemma {:induction false} AttributesListed(t: Tree, i: nat, test: NodeTest, k: nat)
    requires i < t.Count() && k <= |t.data[i].attributes|
    ensures AttributeList(t, i, test, k) == [] <==>
      forall j :: k <= j < |t.data[i].attributes| ==> !AcceptsAttribute(test, t.data[i].attributes[j])
    decreases |t.data[i].attributes| - k
  {
    hide AcceptsAttribute;
    if k < |t.data[i].attributes| {
      AttributesListed(t, i, test, k + 1);
    }
  }
}
