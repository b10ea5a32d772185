/**
 The functions of the core library, as the evaluator computes them: walks up and down the links of the tree, searches,
 and rewriting in place.
 */
module XPathFunctions {

  import opened Common
  import opened XmlTree
  import opened XPathLibrary
  import opened XPathModel
  import XmlText
  import Traversal

  // Nodes

  lemma LinkedValid(t: Tree, h: Traversal.Heap, i: nat)
    requires Traversal.Linked(t, h) && i < |h|
    ensures t.Valid() && |h| == t.Count() && h[i].kind == t.data[i].kind && h[i].parent == t.parent[i]
    ensures h[i].parent < i && i + t.size[i] <= t.Count()
    ensures Traversal.SubtreeEnd(t, i) == i + t.size[i] && (h[i].firstChild == if t.size[i] > 1 then i + 1 else -1)
  {
    hide Tree.Nested;
  }

  lemma BelowNext(t: Tree, i: nat, j: nat)
    requires i < j <= t.Count()
    ensures DataBetween(t, i, j) ==
      DataBetween(t, i, j - 1) + if IsData(t.data[j - 1].kind) then t.data[j - 1].value else ""
  {
  }

  lemma NodeStringIs(t: Tree, i: nat)
    requires t.Valid() && i < t.Count()
    ensures
      var d := t.data[i];
      NodeString(t, i) ==
      if d.kind == KDocument || d.kind == KElement then d.value + DataBetween(t, i + 1, i + t.size[i])
      else if d.kind == KDeclaration || d.kind == KDoctype then "" else d.value
  {
    hide Tree.Nested, DataBetween;
  }

  lemma AncestorOfNext(t: Tree, i: nat, k: nat)
    requires t.Valid() && i < k < t.Count() && k < i + t.size[i]
    ensures t.IsAncestor(i, k)
  {
    hide Tree.Nested;
  }

  /** string_value: the walk over the subtree collects the character data in it. */
  method StringValue(t: Tree, h: Traversal.Heap, x: Item) returns (s: string)
    requires Traversal.Linked(t, h)
    ensures s == ItemString(t, x)
  {
    hide Traversal.Linked, Tree.Valid, DataBetween, NodeString;
    if !InDoc(t, x) {
      return "";
    }
    if x.attr != -1 {
      return t.data[x.node].attributes[x.attr].value;
    }
    var n := x.node;
    LinkedCount(t, h);
    LinkedValid(t, h, n);
    NodeStringIs(t, n);
    match h[n].kind {
      case KPcdata => s := t.data[n].value;
      case KCdata => s := t.data[n].value;
      case KComment => s := t.data[n].value;
      case KPi => s := t.data[n].value;
      case KDeclaration => s := "";
      case KDoctype => s := "";
      case _ => s := SubtreeData(t, h, n);
    }
  }

  lemma LinkedCount(t: Tree, h: Traversal.Heap)
    requires Traversal.Linked(t, h)
    ensures t.Valid() && |h| == t.Count()
  {
  }

  lemma NothingBetween(t: Tree, i: nat)
    requires i <= t.Count()
    ensures DataBetween(t, i, i) == ""
  {
  }

  method SubtreeData(t: Tree, h: Traversal.Heap, n: nat) returns (s: string)
    requires Traversal.Linked(t, h) && t.Valid() && n < |h| == t.Count()
    ensures n + t.size[n] <= t.Count() && s == t.data[n].value + DataBetween(t, n + 1, n + t.size[n])
  {
    hide Traversal.Linked, Tree.Nested, DataBetween;
    LinkedValid(t, h, n);
    s := if t.data[n].value != "" then t.data[n].value else "";
    var cur := h[n].firstChild;
    ghost var k := n + 1;
    NothingBetween(t, k);
    while cur != -1
      invariant n < k <= n + t.size[n] && cur == if k < n + t.size[n] then k else -1
      invariant s == t.data[n].value + DataBetween(t, n + 1, k)
      decreases n + t.size[n] - k
    {
      LinkedValid(t, h, cur);
      BelowNext(t, n + 1, k + 1);
      if IsData(h[cur].kind) {
        s := s + t.data[cur].value;
      }
      AncestorOfNext(t, n, cur);
      cur := Traversal.Advance(t, h, cur, n);
      k := k + 1;
    }
  }

  /** attribute, find_attribute: the first one with the name. */
  method FindAttribute(attributes: seq<Attribute>, name: string) returns (k: nat)
    ensures k == AttributeNamed(attributes, name)
  {
    k := 0;
    while k < |attributes| && attributes[k].name != name
      invariant k <= |attributes| && forall j :: 0 <= j < k ==> attributes[j].name != name
    {
      k := k + 1;
    }
    var _ := AttributeNamed(attributes, name);
  }

  lemma InheritedStep(t: Tree, i: nat, name: string)
    requires t.Valid() && i < t.Count()
    ensures
      var k := AttributeNamed(t.data[i].attributes, name);
      Inherited(t, i, name) ==
      if k < |t.data[i].attributes| then Some(t.data[i].attributes[k].value)
      else if i == 0 then None else Inherited(t, t.parent[i], name)
  {
    hide Tree.Nested;
  }

  /** The walk of lang() and namespace_uri(): up to the nearest node with the attribute. */
  method FindInherited(t: Tree, h: Traversal.Heap, n: nat, name: string) returns (r: Option<string>)
    requires Traversal.Linked(t, h) && n < |h|
    ensures r == Inherited(t, n, name)
  {
    hide Traversal.Linked, Tree.Nested, Inherited, AttributeNamed;
    LinkedCount(t, h);
    var p: int := n;
    while p != -1
      invariant -1 <= p <= n
      invariant Inherited(t, n, name) == if p == -1 then None else Inherited(t, p, name)
      decreases p
    {
      LinkedValid(t, h, p);
      InheritedStep(t, p, name);
      var k := FindAttribute(t.data[p].attributes, name);
      if k < |t.data[p].attributes| {
        return Some(t.data[p].attributes[k].value);
      }
      p := h[p].parent;
    }
    r := None;
  }

  /** find_char, or the end of the string. */
  method FindChar(s: string, c: char) returns (k: nat)
    ensures k == IndexOf(s, c)
  {
    k := 0;
    while k < |s| && s[k] != c
      invariant k <= |s| && c !in s[..k]
    {
      k := k + 1;
    }
    IndexUnique(s, c, k);
  }

  lemma IndexUnique(s: string, c: char, k: nat)
    requires k <= |s| && c !in s[..k] && (k < |s| ==> s[k] == c)
    ensures k == IndexOf(s, c)
  {
  }

  /** local_name, qualified_name and namespace_uri. */
  method NameOfNode(t: Tree, h: Traversal.Heap, which: NameFunction, x: Item) returns (s: string)
    requires Traversal.Linked(t, h)
    ensures s == NameOfItem(t, which, x)
  {
    hide Traversal.Linked, Inherited, IndexOf;
    LinkedCount(t, h);
    var name := if !InDoc(t, x) then "" else if x.attr != -1 then t.data[x.node].attributes[x.attr].name
                else t.data[x.node].name;
    if which == QualifiedName {
      return name;
    }
    var pos := FindChar(name, ':');
    if which == LocalName {
      return if pos < |name| then name[pos + 1..] else name;
    }
    if !InDoc(t, x) || (x.attr != -1 && pos == |name|) {
      return "";
    }
    var r := FindInherited(t, h, x.node, if pos < |name| then "xmlns:" + name[..pos] else "xmlns");
    s := if r.None? then "" else r.value;
  }

  /** The comparison in lang(), character by character. */
  method Speaks(value: string, lang: string) returns (b: bool)
    ensures b == IsLanguage(value, lang)
  {
    var i := 0;
    while i < |lang|
      invariant i <= |lang| && i <= |value| && forall j :: 0 <= j < i ==> LowerCase(value[j]) == LowerCase(lang[j])
    {
      if i == |value| || LowerCase(lang[i]) != LowerCase(value[i]) {
        return false;
      }
      i := i + 1;
    }
    b := i == |value| || value[i] == '-';
  }

  method Lang(t: Tree, h: Traversal.Heap, x: Item, lang: string) returns (b: bool)
    requires Traversal.Linked(t, h)
    ensures b == HasLanguage(t, x, lang)
  {
    hide Traversal.Linked, Inherited, IsLanguage;
    LinkedCount(t, h);
    if !InDoc(t, x) || x.attr != -1 {
      return false;
    }
    var value := FindInherited(t, h, x.node, "xml:lang");
    if value.None? {
      return false;
    }
    b := Speaks(value.value, lang);
  }

  // Strings

  /** starts_with. */
  method Starts(s: string, pattern: string) returns (b: bool)
    ensures b == (pattern <= s)
  {
    var i := 0;
    while i < |pattern| && i < |s| && s[i] == pattern[i]
      invariant i <= |pattern| && i <= |s| && s[..i] == pattern[..i]
    {
      i := i + 1;
    }
    b := i == |pattern|;
    assert b ==> pattern[..i] == pattern;
    assert pattern <= s ==> forall j :: 0 <= j < |pattern| ==> s[j] == pattern[j];
  }

  /** eval_string_concat: the length first, then the characters. */
  method Concat(strings: seq<string>) returns (s: string)
    ensures s == Joined(strings)
  {
    hide Joined;
    NothingJoined();
    assert strings[..0] == [];
    var length := 0;
    for i := 0 to |strings|
      invariant length == |Joined(strings[..i])|
    {
      JoinedNext(strings, i);
      length := length + |strings[i]|;
    }
    var result := new char[length](_ => ' ');
    var ri := 0;
    assert strings[..|strings|] == strings;
    for j := 0 to |strings|
      invariant ri == |Joined(strings[..j])| <= length && result[..ri] == Joined(strings[..j])
    {
      JoinedNext(strings, j);
      JoinedGrows(strings, j + 1);
      ghost var before := result[..ri];
      for i := 0 to |strings[j]|
        invariant ri == |before| + i && ri <= length && result[..ri] == before + strings[j][..i]
      {
        result[ri] := strings[j][i];
        ri := ri + 1;
      }
    }
    s := result[..];
  }

  lemma JoinedNext(strings: seq<string>, i: nat)
    requires i < |strings|
    ensures Joined(strings[..i + 1]) == Joined(strings[..i]) + strings[i]
  {
    assert strings[..i + 1][..i] == strings[..i];
  }

  lemma {:induction false} JoinedGrows(strings: seq<string>, i: nat)
    requires i <= |strings|
    ensures |Joined(strings[..i])| <= |Joined(strings)|
    decreases |strings| - i
  {
    if i < |strings| {
      JoinedNext(strings, i);
      JoinedGrows(strings, i + 1);
    } else {
      assert strings[..i] == strings;
    }
  }

  /** Positions from a on and below b are picked. */
  lemma {:induction false} PickedSlice(s: string, first: Number, last: Option<Number>, a: nat, b: nat, k: nat)
    requires 1 <= a <= b <= |s| + 1 && k <= |s|
    requires forall j: nat :: 1 <= j <= |s| ==> (Within(first, last, j) <==> a <= j < b)
    ensures Picked(s, first, last, k) == if k < a then "" else s[a - 1..if k < b then k else b - 1]
  {
    hide Within;
    if k != 0 {
      PickedSlice(s, first, last, a, b, k - 1);
      if a <= k < b {
        assert Within(first, last, k);
        assert s[a - 1..k] == s[a - 1..k - 1] + [s[k - 1]];
      } else {
        assert !Within(first, last, k);
      }
    }
  }

  lemma {:induction false} PickedNone(s: string, first: Number, last: Option<Number>, k: nat)
    requires k <= |s| && forall j: nat :: 1 <= j <= |s| ==> !Within(first, last, j)
    ensures Picked(s, first, last, k) == ""
  {
    hide Within;
    if k != 0 {
      PickedNone(s, first, last, k - 1);
    }
  }

  /** static_cast<size_t> of a number that is at least 1. */
  function Index(n: Number): nat
    requires n.Finite? && n.r >= 1.0
  {
    n.r.Floor
  }

  predicate IsWhole(n: Number) {
    n.Finite? ==> n.r.Floor as real == n.r
  }

  lemma RoundIsWhole(n: Number)
    ensures IsWhole(RoundOf(n))
  {
    if n.Finite? {
      var f := (n.r + 0.5).Floor;
      assert RoundOf(n) == Finite(f as real) && (f as real).Floor == f;
    }
  }

  lemma SumIsWhole(a: Number, b: Number)
    requires IsWhole(a) && IsWhole(b)
    ensures IsWhole(Plus(a, b))
  {
    if a.Finite? && b.Finite? {
      assert a.r + b.r == (a.r.Floor + b.r.Floor) as real;
    }
  }

  /** Which positions lie from a whole number on, as the code finds it out. */
  lemma FromIndex(first: Number, size: nat, j: nat)
    requires IsWhole(first) && first != NaN && 1 <= j <= size
    ensures NumberLess(first, Natural(size + 1)) || !(NumberLess(first, Natural(j)) || NumberEq(first, Natural(j)))
    ensures NumberLess(first, Natural(size + 1)) ==>
      ((NumberLess(first, Natural(j)) || NumberEq(first, Natural(j))) <==>
       (if NumberLess(first, Natural(1)) then 1 else Index(first)) <= j)
  {
    assert j as real <= size as real;
    if first.Finite? && first.r >= 1.0 {
      assert first.r == Index(first) as real;
    }
  }

  /** The same for the end. */
  lemma BelowIndex(last: Number, size: nat, j: nat)
    requires IsWhole(last) && last != NaN && !NumberLess(last, Natural(1)) && 1 <= j <= size
    ensures NumberLess(Natural(j), last) <==>
      j < if NumberLess(last, Natural(size + 1)) then Index(last) else size + 1
  {
    assert j as real <= size as real;
    if last.Finite? {
      assert last.r == Index(last) as real;
    }
  }

  /** substring() with two arguments. */
  method SubstringFrom(s: string, from: Number) returns (r: string)
    ensures r == Substring(s, from, None)
  {
    hide RoundOf, Within, Picked;
    var first := RoundOf(from);
    RoundIsWhole(from);
    if first == NaN {
      NeverFrom(first, None);
      PickedNone(s, first, None, |s|);
      return "";
    }
    forall j: nat | 1 <= j <= |s|
      ensures !NumberLess(first, Natural(|s| + 1)) ==> !Within(first, None, j)
      ensures NumberLess(first, Natural(|s| + 1)) ==>
        (Within(first, None, j) <==> (if NumberLess(first, Natural(1)) then 1 else Index(first)) <= j)
    {
      FromIndex(first, |s|, j);
      WithinIs(first, None, j);
    }
    if !NumberLess(first, Natural(|s| + 1)) {
      PickedNone(s, first, None, |s|);
      return "";
    }
    var pos := if NumberLess(first, Natural(1)) then 1 else Index(first);
    IndexFits(first, |s|);
    PickedSlice(s, first, None, pos, |s| + 1, |s|);
    r := s[pos - 1..];
  }

  lemma WithinIs(first: Number, last: Option<Number>, k: nat)
    ensures Within(first, last, k) <==>
      (NumberLess(first, Natural(k)) || NumberEq(first, Natural(k))) &&
      (last.Some? ==> NumberLess(Natural(k), last.value))
  {
  }

  lemma NeverFrom(first: Number, last: Option<Number>)
    requires first == NaN || last == Some(NaN)
    ensures forall j: nat :: !Within(first, last, j)
  {
  }

  lemma IndexFits(first: Number, size: nat)
    requires IsWhole(first) && NumberLess(first, Natural(size + 1))
    ensures 1 <= (if NumberLess(first, Natural(1)) then 1 else Index(first)) <= size + 1
  {
    if first.Finite? && first.r >= 1.0 {
      assert first.r == Index(first) as real;
    }
  }

  /** substring() with three arguments. */
  method SubstringBetween(s: string, from: Number, length: Number) returns (r: string)
    ensures r == Substring(s, from, Some(length))
  {
    hide RoundOf, Within, Picked, Plus;
    var first := RoundOf(from);
    var last := Plus(first, RoundOf(length));
    RoundIsWhole(from);
    RoundIsWhole(length);
    SumIsWhole(first, RoundOf(length));
    if first == NaN || last == NaN {
      NeverFrom(first, Some(last));
      PickedNone(s, first, Some(last), |s|);
      return "";
    }
    if !NumberLess(first, Natural(|s| + 1)) || !NumberLess(first, last) || NumberLess(last, Natural(1)) {
      forall j: nat | 1 <= j <= |s|
        ensures !Within(first, Some(last), j)
      {
        NoPosition(first, last, |s|, j);
      }
      PickedNone(s, first, Some(last), |s|);
      return "";
    }
    var pos := if NumberLess(first, Natural(1)) then 1 else Index(first);
    var end := if NumberLess(last, Natural(|s| + 1)) then Index(last) else |s| + 1;
    IndexesFit(first, last, |s|);
    forall j: nat | 1 <= j <= |s|
      ensures Within(first, Some(last), j) <==> pos <= j < end
    {
      FromIndex(first, |s|, j);
      BelowIndex(last, |s|, j);
      WithinIs(first, Some(last), j);
    }
    PickedSlice(s, first, Some(last), pos, end, |s|);
    r := s[pos - 1..end - 1];
  }

  lemma NoPosition(first: Number, last: Number, size: nat, j: nat)
    requires IsWhole(first) && first != NaN && last != NaN && 1 <= j <= size
    requires !NumberLess(first, Natural(size + 1)) || !NumberLess(first, last) || NumberLess(last, Natural(1))
    ensures !Within(first, Some(last), j)
  {
    assert 1.0 <= j as real <= size as real;
  }

  lemma IndexesFit(first: Number, last: Number, size: nat)
    requires IsWhole(first) && IsWhole(last) && NumberLess(first, Natural(size + 1)) && NumberLess(first, last)
    requires last != NaN && !NumberLess(last, Natural(1))
    ensures
      var pos := if NumberLess(first, Natural(1)) then 1 else Index(first);
      1 <= pos <= (if NumberLess(last, Natural(size + 1)) then Index(last) else size + 1) <= size + 1
  {
    IndexFits(first, size);
    if last.Finite? {
      assert last.r == Index(last) as real;
    }
    if first.Finite? && first.r >= 1.0 {
      assert first.r == Index(first) as real;
    }
  }

  /** round_nearest_nzero differs from round_nearest only in the sign of a zero. */
  method RoundNearest(n: Number) returns (r: Number)
    ensures r == RoundOf(n)
  {
    if n.Finite? && -0.5 <= n.r && n.r <= 0.0 {
      r := CeilingOf(n);
      SmallRound(n.r);
    } else {
      r := FloorOf(Plus(n, Finite(0.5)));
    }
  }

  lemma SmallRound(x: real)
    requires -0.5 <= x <= 0.0
    ensures (x + 0.5).Floor == 0 == -(-x).Floor
  {
  }

  // Normalizing white space in place

  lemma BlankSkipped(c: char, rest: string, after: bool)
    requires XmlText.IsSpace(c)
    ensures XmlText.Single([c] + rest, true, true) == XmlText.Single(rest, true, true)
    ensures XmlText.Single([c] + rest, true, after) == XmlText.Single(" " + rest, true, after)
    ensures XmlText.Single(" " + ([c] + rest), true, after) == XmlText.Single(" " + rest, true, after)
  {
    assert ([c] + rest)[1..] == rest && (" " + rest)[1..] == rest && (" " + ([c] + rest))[1..] == [c] + rest;
  }

  lemma OtherKept(c: char, rest: string, after: bool)
    requires !XmlText.IsSpace(c)
    ensures XmlText.Single([c] + rest, true, after) == [c] + XmlText.Single(rest, true, false)
    ensures XmlText.Single(" " + ([c] + rest), true, false) == " " + ([c] + XmlText.Single(rest, true, false))
  {
    assert ([c] + rest)[1..] == rest && (" " + ([c] + rest))[1..] == [c] + rest;
  }

  lemma NothingKept()
    ensures XmlText.Single("", true, false) == "" && XmlText.Single(" ", true, false) == ""
    ensures XmlText.Single("", true, true) == ""
  {
    assert " "[1..] == "";
  }

  /** What has been written, without a last space, and what is still to come make up the result. */
  ghost predicate Normalizing(s: string, it: nat, out: string) {
    it <= |s| &&
    if out == "" then XmlText.Single(s, true, true) == XmlText.Single(s[it..], true, true)
    else if XmlText.IsSpace(out[|out| - 1]) then
      && out[|out| - 1] == ' '
      && XmlText.Single(s, true, true) == out[..|out| - 1] + XmlText.Single(" " + s[it..], true, false)
    else XmlText.Single(s, true, true) == out + XmlText.Single(s[it..], true, false)
  }

  lemma BlankRead(s: string, it: nat, out: string)
    requires Normalizing(s, it, out) && it < |s| && XmlText.IsSpace(s[it])
    requires out == "" || XmlText.IsSpace(out[|out| - 1])
    ensures Normalizing(s, it + 1, out)
  {
    assert s[it..] == [s[it]] + s[it + 1..];
    BlankSkipped(s[it], s[it + 1..], false);
    hide XmlText.Single;
  }

  lemma BlankWritten(s: string, it: nat, out: string)
    requires Normalizing(s, it, out) && it < |s| && XmlText.IsSpace(s[it])
    requires out != "" && !XmlText.IsSpace(out[|out| - 1])
    ensures Normalizing(s, it + 1, out + " ")
  {
    assert s[it..] == [s[it]] + s[it + 1..] && (out + " ")[..|out|] == out;
    BlankSkipped(s[it], s[it + 1..], false);
    hide XmlText.Single;
  }

  lemma OtherWritten(s: string, it: nat, out: string)
    requires Normalizing(s, it, out) && it < |s| && !XmlText.IsSpace(s[it])
    ensures Normalizing(s, it + 1, out + [s[it]])
  {
    assert s[it..] == [s[it]] + s[it + 1..];
    OtherKept(s[it], s[it + 1..], true);
    OtherKept(s[it], s[it + 1..], false);
    if out != "" && XmlText.IsSpace(out[|out| - 1]) {
      assert out == out[..|out| - 1] + " ";
      assert out[..|out| - 1] + (" " + ([s[it]] + XmlText.Single(s[it + 1..], true, false))) ==
             out + [s[it]] + XmlText.Single(s[it + 1..], true, false);
    }
    hide XmlText.Single;
  }

  lemma AllNormalized(s: string, out: string)
    requires Normalizing(s, |s|, out)
    ensures XmlText.Single(s, true, true) ==
      if out != "" && XmlText.IsSpace(out[|out| - 1]) then out[..|out| - 1] else out
  {
    NothingKept();
    assert s[|s|..] == "" && " " + "" == " ";
    hide XmlText.Single;
  }

  lemma StartNormalizing(s: string)
    ensures Normalizing(s, 0, "") && XmlText.IsSpace(' ')
  {
    assert s[0..] == s;
    hide XmlText.Single;
  }

  /** normalize_space; a string ends where its zero would be. */
  method NormalizeInPlace(buffer: array<char>) returns (write: nat)
    modifies buffer
    ensures write <= buffer.Length && buffer[..write] == NormalizedSpace(old(buffer[..]))
  {
    hide Normalizing, XmlText.Single, XmlText.IsSpace;
    ghost var s := buffer[..];
    write := 0;
    var it := 0;
    StartNormalizing(s);
    assert buffer[..0] == "";
    while it < buffer.Length
      invariant write <= it <= buffer.Length && Normalizing(s, it, buffer[..write])
      invariant forall i :: it <= i < buffer.Length ==> buffer[i] == s[i]
      invariant it < buffer.Length && XmlText.IsSpace(buffer[it]) ==> write == 0 || !XmlText.IsSpace(buffer[write - 1])
    {
      var ch := buffer[it];
      ghost var out := buffer[..write];
      it := it + 1;
      if XmlText.IsSpace(ch) {
        if write != 0 {
          BlankWritten(s, it - 1, out);
          out := out + " ";
        } else {
          BlankRead(s, it - 1, out);
        }
        while it < buffer.Length && XmlText.IsSpace(buffer[it])
          invariant write < it <= buffer.Length && Normalizing(s, it, out)
          invariant out == (if write != 0 then buffer[..write] + " " else "")
          invariant out == "" || out[|out| - 1] == ' '
          invariant forall i :: it <= i < buffer.Length ==> buffer[i] == s[i]
          decreases buffer.Length - it
        {
          BlankRead(s, it, out);
          it := it + 1;
        }
        if write != 0 {
          buffer[write] := ' ';
          assert buffer[..write + 1] == out;
          write := write + 1;
        }
      } else {
        OtherWritten(s, it - 1, out);
        out := out + [ch];
        buffer[write] := ch;
        write := write + 1;
      }
      assert buffer[..write] == out;
    }
    AllNormalized(s, buffer[..write]);
    if write != 0 && XmlText.IsSpace(buffer[write - 1]) {
      write := write - 1;
    }
  }

  method NormalizeSpace(s: string) returns (r: string)
    ensures r == NormalizedSpace(s)
  {
    hide NormalizedSpace;
    var buffer := new char[|s|](i requires 0 <= i < |s| => s[i]);
    assert buffer[..] == s;
    var end := NormalizeInPlace(buffer);
    r := buffer[..end];
  }

  // Calls

  method CallBoolean(w: World, h: Traversal.Heap, f: Function, x: Item, vals: seq<Value>) returns (b: bool)
    requires Traversal.Linked(w.t, h)
    ensures b == CallBool(w, f, x, vals)
  {
    hide Traversal.Linked, HasLanguage;
    match f {
      case FBoolean => b := BoolAt(vals, 0);
      case FNot => b := !BoolAt(vals, 0);
      case FTrue => b := true;
      case FLang => b := Lang(w.t, h, x, StrAt(vals, 0));
      case FStartsWith => b := Starts(StrAt(vals, 0), StrAt(vals, 1));
      case FContains => b := Find(StrAt(vals, 0), StrAt(vals, 1), 0).Some?;
      case _ => b := false;
    }
  }

  method CallNumber(w: World, h: Traversal.Heap, f: Function, x: Item, vals: seq<Value>) returns (n: Number)
    requires Traversal.Linked(w.t, h)
    ensures n == CallNum(w, f, x, vals)
  {
    hide Traversal.Linked, RoundOf, ItemString;
    match f {
      case FNumber0 =>
        var s := StringValue(w.t, h, x);
        n := w.toNumber(s);
      case FStringLength0 =>
        var s := StringValue(w.t, h, x);
        n := Natural(|s|);
      case FStringLength1 => n := Natural(|StrAt(vals, 0)|);
      case FFloor => n := FloorOf(NumAt(vals, 0));
      case FCeiling => n := CeilingOf(NumAt(vals, 0));
      case FRound => n := RoundNearest(NumAt(vals, 0));
      case _ => n := NumAt(vals, 0);
    }
  }

  method CallString(w: World, h: Traversal.Heap, f: Function, x: Item, vals: seq<Value>) returns (s: string)
    requires Traversal.Linked(w.t, h)
    ensures s == CallStr(w, f, x, vals)
  {
    hide Traversal.Linked, ItemString, NameOfItem, Substring, NormalizedSpace, Joined;
    match f {
      case FString0 => s := StringValue(w.t, h, x);
      case FConcat => s := Concat(Strings(vals));
      case FSubstringBefore =>
        var pos := Find(StrAt(vals, 0), StrAt(vals, 1), 0);
        s := if pos.Some? then StrAt(vals, 0)[..pos.value] else "";
      case FSubstringAfter =>
        var pos := Find(StrAt(vals, 0), StrAt(vals, 1), 0);
        s := if pos.Some? then StrAt(vals, 0)[pos.value + |StrAt(vals, 1)|..] else "";
      case FSubstring2 => s := SubstringFrom(StrAt(vals, 0), NumAt(vals, 1));
      case FSubstring3 => s := SubstringBetween(StrAt(vals, 0), NumAt(vals, 1), NumAt(vals, 2));
      case FNormalizeSpace0 =>
        var value := StringValue(w.t, h, x);
        s := NormalizeSpace(value);
      case FNormalizeSpace1 => s := NormalizeSpace(StrAt(vals, 0));
      case FLocalName0 => s := NameOfNode(w.t, h, LocalName, x);
      case FName0 => s := NameOfNode(w.t, h, QualifiedName, x);
      case FNamespaceUri0 => s := NameOfNode(w.t, h, NamespaceUri, x);
      case _ => s := StrAt(vals, 0);
    }
  }
}
