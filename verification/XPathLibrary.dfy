/**
 The functions of the core library of XPath 1.0 (section 4), and the nodes and numbers they work on.
 */
module XPathLibrary {

  import opened Common
  import opened XmlTree
  import XmlText

  // Nodes

  /** A node of the document, or the attr-th attribute of an element when attr >= 0. */
  datatype Item = Item(node: nat, attr: int)

  function NodeItem(i: nat): Item {
    Item(i, -1)
  }

  predicate InDoc(t: Tree, x: Item) {
    x.node < t.Count() && -1 <= x.attr < |t.data[x.node].attributes|
  }

  /** The first attribute with a given name. */
  function AttributeNamed(attributes: seq<Attribute>, name: string): (k: nat)
    ensures k <= |attributes|
    ensures k < |attributes| ==> attributes[k].name == name
    ensures forall j :: 0 <= j < k ==> attributes[j].name != name
  {
    if attributes == [] then 0
    else if attributes[0].name == name then 0
    else 1 + AttributeNamed(attributes[1..], name)
  }

  /** Character data among the nodes from i to j, in document order. */
  function DataBetween(t: Tree, i: nat, j: nat): string
    requires j <= t.Count()
  {
    if j <= i then ""
    else DataBetween(t, i, j - 1) + if IsData(t.data[j - 1].kind) then t.data[j - 1].value else ""
  }

  predicate IsData(kind: Kind) {
    kind == KPcdata || kind == KCdata
  }

  /** The string-value of a node that is no attribute (section 5); an element can have character data of its own. */
  function NodeString(t: Tree, i: nat): string {
    if !(i < t.Count() && i < |t.size| && i + t.size[i] <= t.Count()) then ""
    else
      match t.data[i].kind
      case KPcdata | KCdata | KComment | KPi => t.data[i].value
      case KDocument | KElement => t.data[i].value + DataBetween(t, i + 1, i + t.size[i])
      case _ => ""
  }

  /** The string-value of a node; null has none. */
  function ItemString(t: Tree, x: Item): string {
    if !InDoc(t, x) then ""
    else if x.attr != -1 then t.data[x.node].attributes[x.attr].value
    else NodeString(t, x.node)
  }

  // Names (section 4.1)

  datatype NameFunction = LocalName | QualifiedName | NamespaceUri

  /** The position of the first c in s, or the length of s. */
  function IndexOf(s: string, c: char): (k: nat)
    ensures k <= |s| && c !in s[..k] && (k < |s| ==> s[k] == c)
  {
    if s == [] then 0
    else if s[0] == c then 0
    else
      assert forall k :: 0 <= k <= |s| - 1 ==> s[..k + 1] == [s[0]] + s[1..][..k];
      1 + IndexOf(s[1..], c)
  }

  function NodeName(t: Tree, x: Item): string {
    if !InDoc(t, x) then ""
    else if x.attr != -1 then t.data[x.node].attributes[x.attr].name
    else t.data[x.node].name
  }

  /** The part of a name in front of the colon, if it has one. */
  function Prefix(name: string): Option<string> {
    var k := IndexOf(name, ':');
    if k == |name| then None else Some(name[..k])
  }

  /** The name of the attribute that declares the namespace of a prefix, or the default namespace. */
  function Declaration(prefix: Option<string>): string {
    if prefix.None? then "xmlns" else "xmlns:" + prefix.value
  }

  /** The value of the attribute of that name at the nearest node from i upwards that has one. */
  function Inherited(t: Tree, i: nat, name: string): Option<string> {
    if i >= t.Count() then None
    else
      var k := AttributeNamed(t.data[i].attributes, name);
      if k < |t.data[i].attributes| then Some(t.data[i].attributes[k].value)
      else if i < |t.parent| && 0 <= t.parent[i] < i then Inherited(t, t.parent[i], name)
      else None
  }

  function OrEmpty(s: Option<string>): string {
    if s.None? then "" else s.value
  }

  /** The URI of the namespace that is in force for the prefix; the default one does not apply to attributes. */
  function NamespaceOf(t: Tree, x: Item): string {
    var prefix := Prefix(NodeName(t, x));
    if !InDoc(t, x) || (x.attr != -1 && prefix.None?) then "" else OrEmpty(Inherited(t, x.node, Declaration(prefix)))
  }

  function NameOfItem(t: Tree, which: NameFunction, x: Item): string {
    match which
    case QualifiedName => NodeName(t, x)
    case LocalName =>
      var name := NodeName(t, x);
      var k := IndexOf(name, ':');
      if k == |name| then name else name[k + 1..]
    case NamespaceUri => NamespaceOf(t, x)
  }

  // Numbers, up to rounding

  datatype Number = NaN | PosInf | NegInf | Finite(r: real)

  predicate NumberEq(a: Number, b: Number) {
    a == b && a != NaN
  }

  predicate NumberLess(a: Number, b: Number) {
    match (a, b)
    case (Finite(x), Finite(y)) => x < y
    case (NegInf, Finite(_)) => true
    case (NegInf, PosInf) => true
    case (Finite(_), PosInf) => true
    case _ => false
  }

  function Natural(n: nat): Number {
    Finite(n as real)
  }

  /** Addition, up to rounding. */
  function Plus(a: Number, b: Number): Number {
    match (a, b)
    case (Finite(x), Finite(y)) => Finite(x + y)
    case (Finite(_), _) => b
    case (_, Finite(_)) => a
    case _ => if a == b then a else NaN
  }

  /** The largest integer that is not larger (section 4.4); the others of these functions are like it. */
  function FloorOf(n: Number): Number {
    if n.Finite? then Finite(n.r.Floor as real) else n
  }

  function CeilingOf(n: Number): Number {
    if n.Finite? then Finite(-(-n.r).Floor as real) else n
  }

  /** The nearest integer, the larger one of two. */
  function RoundOf(n: Number): Number {
    FloorOf(Plus(n, Finite(0.5)))
  }

  // Strings (section 4.2)

  ghost predicate Occurs(s: string, p: string, k: nat) {
    k + |p| <= |s| && s[k..k + |p|] == p
  }

  /** The first position from k on at which p occurs in s. */
  function Find(s: string, p: string, k: nat): (r: Option<nat>)
    ensures r.Some? ==> k <= r.value && Occurs(s, p, r.value) && forall j: nat :: k <= j < r.value ==> !Occurs(s, p, j)
    ensures r.None? ==> forall j: nat :: k <= j ==> !Occurs(s, p, j)
    decreases |s| - k
  {
    if k + |p| > |s| then None
    else if s[k..k + |p|] == p then Some(k)
    else Find(s, p, k + 1)
  }

  function SubstringBefore(s: string, p: string): string {
    var k := Find(s, p, 0);
    if k.None? then "" else s[..k.value]
  }

  function SubstringAfter(s: string, p: string): string {
    var k := Find(s, p, 0);
    if k.None? then "" else s[k.value + |p|..]
  }

  /** Position k of a string, counted from 1, is not before the first one, and before the last one if there is one. */
  predicate Within(first: Number, last: Option<Number>, k: nat) {
    && (NumberLess(first, Natural(k)) || NumberEq(first, Natural(k)))
    && (last.Some? ==> NumberLess(Natural(k), last.value))
  }

  /** Of the first k characters, those at the positions within. */
  function Picked(s: string, first: Number, last: Option<Number>, k: nat): string
    requires k <= |s|
  {
    if k == 0 then "" else Picked(s, first, last, k - 1) + if Within(first, last, k) then [s[k - 1]] else ""
  }

  /** The characters at the positions from the rounded one on, or as many of them as the rounded length says. */
  function Substring(s: string, from: Number, length: Option<Number>): string {
    var first := RoundOf(from);
    Picked(s, first, if length.None? then None else Some(Plus(first, RoundOf(length.value))), |s|)
  }

  function NormalizedSpace(s: string): string {
    XmlText.Single(s, true, true)
  }

  // The language of a node (section 4.3)

  function LowerCase(c: char): char {
    if 'A' <= c <= 'Z' then c + 32 as char else c
  }

  /** The language is the one asked for or a sublanguage of it, whatever the case of the letters. */
  predicate IsLanguage(value: string, lang: string) {
    && |lang| <= |value| && (forall i :: 0 <= i < |lang| ==> LowerCase(value[i]) == LowerCase(lang[i]))
    && (|value| == |lang| || value[|lang|] == '-')
  }

  /** lang(), which is false for attributes. */
  predicate HasLanguage(t: Tree, x: Item, lang: string) {
    var value := Inherited(t, x.node, "xml:lang");
    InDoc(t, x) && x.attr == -1 && value.Some? && IsLanguage(value.value, lang)
  }
}
