/**
 XPath expressions and what they mean.

 The meaning of an expression is a value: a boolean, a number, a string or a set
 of nodes (XPath 1.0, section 1).  It says nothing about the order in which an
 evaluator finds nodes, or when it may stop looking.
 */
module XPathModel {
  import opened Common
  import opened XmlTree
  import opened XPathLibrary

  /** Document order: attributes come after their element and before its children. */
  predicate Before(x: Item, y: Item) {
    x.node < y.node || (x.node == y.node && x.attr < y.attr)
  }

  /** Namespace declarations are not attribute nodes. */
  predicate IsXPathAttribute(name: string) {
    !("xmlns" <= name && (|name| == 5 || name[5] == ':'))
  }

  predicate AcceptsAttribute(test: NodeTest, a: Attribute) {
    IsXPathAttribute(a.name) &&
    match test
    case TestName(n) => a.name == n
    case TestNode => true
    case TestAll => true
    case TestNamespace(p) => StartsWith(a.name, p)
    case _ => false
  }

  /** The axes of an attribute of element p, as far as they reach nodes that are not attributes. */
  predicate OnAttributeAxis(t: Tree, axis: Axis, p: nat, j: nat)
    requires |t.parent| == |t.size| && p < |t.size| && j < |t.size|
  {
    match axis
    case Ancestor => OnAxis(t, AncestorOrSelf, p, j)
    case AncestorOrSelf => OnAxis(t, AncestorOrSelf, p, j)
    case Parent => j == p
    case Following => p < j
    case Preceding => OnAxis(t, Preceding, p, j)
    case _ => false
  }

  /** y is on the axis of x and passes the node test (XPath 1.0, sections 2.2 and 2.3). */
  predicate Selects(t: Tree, axis: Axis, test: NodeTest, x: Item, y: Item)
    requires |t.data| == |t.parent| == |t.size|
  {
    InDoc(t, x) && InDoc(t, y) &&
    if x.attr == -1 && y.attr == -1 then OnAxis(t, axis, x.node, y.node) && Accepts(test, t.data[y.node])
    else if x.attr == -1 then
      axis == AttributeAxis && y.node == x.node && AcceptsAttribute(test, t.data[y.node].attributes[y.attr])
    else if y.attr == -1 then OnAttributeAxis(t, axis, x.node, y.node) && Accepts(test, t.data[y.node])
    else
      && y == x && (axis == Self || axis == DescendantOrSelf || axis == AncestorOrSelf) && test == TestNode
      && AcceptsAttribute(test, t.data[y.node].attributes[y.attr])
  }

  datatype Type = TBool | TNum | TStr | TNodes

  datatype Value = VBool(b: bool) | VNum(n: Number) | VStr(s: string) | VNodes(nodes: set<Item>)

  datatype Comparison = CmpEq | CmpNe | CmpLess | CmpLessEq | CmpGreater | CmpGreaterEq

  datatype Arithmetic = Add | Subtract | Multiply | Divide | Mod

  /** The functions whose value depends only on their converted arguments and the context node. */
  datatype Function =
    | FBoolean | FNot | FTrue | FFalse | FLang | FStartsWith | FContains
    | FNumber0 | FNumber1 | FStringLength0 | FStringLength1 | FFloor | FCeiling | FRound
    | FString0 | FString1 | FConcat | FSubstringBefore | FSubstringAfter | FSubstring2 | FSubstring3
    | FNormalizeSpace0 | FNormalizeSpace1 | FLocalName0 | FName0 | FNamespaceUri0

  function ResultType(f: Function): Type {
    match f
    case FBoolean | FNot | FTrue | FFalse | FLang | FStartsWith | FContains => TBool
    case FNumber0 | FNumber1 | FStringLength0 | FStringLength1 | FFloor | FCeiling | FRound => TNum
    case _ => TStr
  }

  function ArgumentType(f: Function, i: nat): Type {
    match f
    case FBoolean | FNot => TBool
    case FNumber1 | FFloor | FCeiling | FRound => TNum
    case FSubstring2 | FSubstring3 => if i == 0 then TStr else TNum
    case _ => TStr
  }

  // The values of function arguments, which have been converted and are as many as the parser asks for

  function BoolAt(vals: seq<Value>, i: nat): bool {
    i < |vals| && vals[i].VBool? && vals[i].b
  }

  function NumAt(vals: seq<Value>, i: nat): Number {
    if i < |vals| && vals[i].VNum? then vals[i].n else NaN
  }

  function StrAt(vals: seq<Value>, i: nat): string {
    if i < |vals| && vals[i].VStr? then vals[i].s else ""
  }

  function Strings(vals: seq<Value>): seq<string> {
    seq(|vals|, i requires 0 <= i < |vals| => StrAt(vals, i))
  }

  function CallBool(w: World, f: Function, x: Item, vals: seq<Value>): bool {
    match f
    case FBoolean => BoolAt(vals, 0)
    case FNot => !BoolAt(vals, 0)
    case FTrue => true
    case FLang => HasLanguage(w.t, x, StrAt(vals, 0))
    case FStartsWith => StrAt(vals, 1) <= StrAt(vals, 0)
    case FContains => Find(StrAt(vals, 0), StrAt(vals, 1), 0).Some?
    case _ => false
  }

  function CallNum(w: World, f: Function, x: Item, vals: seq<Value>): Number {
    match f
    case FNumber0 => w.toNumber(ItemString(w.t, x))
    case FStringLength0 => Natural(|ItemString(w.t, x)|)
    case FStringLength1 => Natural(|StrAt(vals, 0)|)
    case FFloor => FloorOf(NumAt(vals, 0))
    case FCeiling => CeilingOf(NumAt(vals, 0))
    case FRound => RoundOf(NumAt(vals, 0))
    case _ => NumAt(vals, 0)
  }

  function CallStr(w: World, f: Function, x: Item, vals: seq<Value>): string {
    match f
    case FString0 => ItemString(w.t, x)
    case FConcat => Joined(Strings(vals))
    case FSubstringBefore => SubstringBefore(StrAt(vals, 0), StrAt(vals, 1))
    case FSubstringAfter => SubstringAfter(StrAt(vals, 0), StrAt(vals, 1))
    case FSubstring2 => Substring(StrAt(vals, 0), NumAt(vals, 1), None)
    case FSubstring3 => Substring(StrAt(vals, 0), NumAt(vals, 1), Some(NumAt(vals, 2)))
    case FNormalizeSpace0 => NormalizedSpace(ItemString(w.t, x))
    case FNormalizeSpace1 => NormalizedSpace(StrAt(vals, 0))
    case FLocalName0 => NameOfItem(w.t, LocalName, x)
    case FName0 => NameOfItem(w.t, QualifiedName, x)
    case FNamespaceUri0 => NameOfItem(w.t, NamespaceUri, x)
    case _ => StrAt(vals, 0)
  }

  /** How the optimizer classified a predicate. */
  datatype PredicateClass = ClassDefault | ClassPosInv | ClassConstant | ClassConstantOne

  datatype Expr =
    | Or(left: Expr, right: Expr)
    | And(left: Expr, right: Expr)
    | Compare(cmp: Comparison, left: Expr, right: Expr)
    | Arith(op: Arithmetic, left: Expr, right: Expr)
    | Negate(arg: Expr)
    | Union(left: Expr, right: Expr)
    | Filter(base: Expr, filter: Expr, cls: PredicateClass)
    | StringConstant(s: string)
    | NumberConstant(n: Number)
    | Variable(name: string, ty: Type)
    | Last
    | Position
    | CountOf(arg: Expr)
    | SumOf(arg: Expr)
    | Id(arg: Expr)
    | NameOf(which: NameFunction, arg: Expr)
    | Call(f: Function, args: Exprs)
    | Translate(arg: Expr, from: Expr, to: Expr)
    | Step(base': Option<Expr>, axis: Axis, test: NodeTest, predicates: Predicates)
    | StepRoot
    | OptTranslateTable(arg: Expr, table: seq<nat>)
    | OptCompareAttribute(attrName: string, right: Expr)

  datatype Exprs = NoExprs | MoreExprs(head: Expr, tail: Exprs)

  /** The predicates of a step, in order. */
  datatype Predicates = NoPredicates | MorePredicates(first: Expr, cls': PredicateClass, rest: Predicates)

  /** The static type of an expression. */
  function TypeOf(e: Expr): Type {
    match e
    case Or(_, _) | And(_, _) | Compare(_, _, _) | OptCompareAttribute(_, _) => TBool
    case Arith(_, _, _) | Negate(_) | NumberConstant(_) | Last | Position | CountOf(_) | SumOf(_) => TNum
    case StringConstant(_) | NameOf(_, _) | Translate(_, _, _) | OptTranslateTable(_, _) => TStr
    case Union(_, _) | Filter(_, _, _) | Id(_) | Step(_, _, _, _) | StepRoot => TNodes
    case Variable(_, ty) => ty
    case Call(f, _) => ResultType(f)
  }

  /**
   The document, the variables, and arithmetic on numbers and their conversion from and to text, with whatever rounding.
   Every theorem holds for all of them.
   */
  datatype World = World(
    t: Tree,
    toNumber: string -> Number,
    toText: Number -> string,
    arith: (Arithmetic, Number, Number) -> Number,
    negate: Number -> Number,
    boolVar: string -> bool,
    numVar: string -> Number,
    strVar: string -> string,
    nodesVar: string -> set<Item>)

  /** The context of an evaluation: node, position and size. */
  datatype Context = Context(x: Item, pos: nat, size: nat)

  /** The string-value of a node. */
  function Text(w: World, x: Item): string {
    ItemString(w.t, x)
  }

  /** The first node of a set, in document order. */
  ghost predicate IsFirst(x: Item, s: set<Item>) {
    x in s && forall y :: y in s ==> x == y || Before(x, y)
  }

  lemma {:induction false} FirstExists(s: set<Item>)
    requires s != {}
    ensures exists x :: IsFirst(x, s)
  {
    var x :| x in s;
    if s == {x} {
      assert IsFirst(x, s);
    } else {
      FirstExists(s - {x});
      var y :| IsFirst(y, s - {x});
      var z := if Before(y, x) then y else x;
      forall u | u in s
        ensures z == u || Before(z, u)
      {
        assert u == x || u == y || Before(y, u);
      }
      assert IsFirst(z, s);
    }
  }

  ghost function First(s: set<Item>): (x: Item)
    requires s != {}
    ensures IsFirst(x, s)
  {
    FirstExists(s);
    var x :| IsFirst(x, s);
    x
  }

  /** The elements of a set in document order. */
  ghost function Ordered(s: set<Item>): seq<Item>
    decreases s
  {
    if s == {} then [] else [First(s)] + Ordered(s - {First(s)})
  }

  ghost predicate Ascending(list: seq<Item>) {
    forall i, j :: 0 <= i < j < |list| ==> Before(list[i], list[j])
  }

  ghost predicate Descending(list: seq<Item>) {
    forall i, j :: 0 <= i < j < |list| ==> Before(list[j], list[i])
  }

  ghost function Elements(list: seq<Item>): set<Item> {
    set x | x in list
  }

  function Nodes(idx: seq<nat>): seq<Item> {
    seq(|idx|, k requires 0 <= k < |idx| => NodeItem(idx[k]))
  }

  /** The accepted attributes of element i, from the k-th on. */
  function AttributeList(t: Tree, i: nat, test: NodeTest, k: nat): seq<Item>
    requires i < t.Count() && k <= |t.data[i].attributes|
    decreases |t.data[i].attributes| - k
  {
    if k == |t.data[i].attributes| then []
    else
      (if AcceptsAttribute(test, t.data[i].attributes[k]) then [Item(i, k)] else []) + AttributeList(t, i, test, k + 1)
  }

  /** What a step selects from one node, in the order of the axis. */
  function StepList(t: Tree, axis: Axis, test: NodeTest, x: Item): seq<Item>
    requires t.Valid()
  {
    if !InDoc(t, x) then []
    else if x.attr == -1 then
      if axis == AttributeAxis then AttributeList(t, x.node, test, 0) else Nodes(Listing(t, axis, test, x.node))
    else
      var own := if test == TestNode && AcceptsAttribute(test, t.data[x.node].attributes[x.attr]) then [x] else [];
      match axis
      case Ancestor => Nodes(Listing(t, AncestorOrSelf, test, x.node))
      case AncestorOrSelf => own + Nodes(Listing(t, AncestorOrSelf, test, x.node))
      case Self => own
      case DescendantOrSelf => own
      case Following =>
        Nodes(Up(Selected(t, Descendant, test, x.node) + Selected(t, Following, test, x.node), t.Count()))
      case Parent => Nodes(Listing(t, Self, test, x.node))
      case Preceding => Nodes(Listing(t, Preceding, test, x.node))
      case _ => []
  }

  /** Conversions between types (XPath 1.0, sections 4.2 to 4.4). */
  ghost function ToBool(w: World, v: Value): bool {
    match v
    case VBool(b) => b
    case VNum(n) => n != Finite(0.0) && n != NaN
    case VStr(s) => s != ""
    case VNodes(s) => s != {}
  }

  ghost function ToText(w: World, v: Value): string {
    match v
    case VBool(b) => if b then "true" else "false"
    case VNum(n) => w.toText(n)
    case VStr(s) => s
    case VNodes(s) => if s == {} then "" else Text(w, First(s))
  }

  ghost function ToNumber(w: World, v: Value): Number {
    match v
    case VBool(b) => if b then Finite(1.0) else Finite(0.0)
    case VNum(n) => n
    case VStr(s) => w.toNumber(s)
    case VNodes(_) => w.toNumber(ToText(w, v))
  }

  function ToNodes(v: Value): set<Item> {
    if v.VNodes? then v.nodes else {}
  }

  ghost function Converted(w: World, v: Value, ty: Type): Value {
    match ty
    case TBool => VBool(ToBool(w, v))
    case TNum => VNum(ToNumber(w, v))
    case TStr => VStr(ToText(w, v))
    case TNodes => VNodes(ToNodes(v))
  }

  predicate CompareNumbers(cmp: Comparison, a: Number, b: Number) {
    match cmp
    case CmpEq => NumberEq(a, b)
    case CmpNe => !NumberEq(a, b)
    case CmpLess => NumberLess(a, b)
    case CmpLessEq => NumberLess(a, b) || NumberEq(a, b)
    case CmpGreater => NumberLess(b, a)
    case CmpGreaterEq => NumberLess(b, a) || NumberEq(a, b)
  }

  /** = and != compare node by node, or as booleans, numbers or strings, whichever of the two operands comes first. */
  ghost predicate CompareEqual(w: World, cmp: Comparison, a: Value, b: Value) {
    if a.VNodes? && b.VNodes? then
      exists x, y :: x in a.nodes && y in b.nodes && (cmp == CmpEq <==> Text(w, x) == Text(w, y))
    else if a.VBool? || b.VBool? then cmp == CmpEq <==> ToBool(w, a) == ToBool(w, b)
    else if a.VNodes? || b.VNodes? then
      var (s, v) := if a.VNodes? then (a.nodes, b) else (b.nodes, a);
      if v.VNum? then exists x :: x in s && CompareNumbers(cmp, v.n, w.toNumber(Text(w, x)))
      else exists x :: x in s && (cmp == CmpEq <==> ToText(w, v) == Text(w, x))
    else if a.VNum? || b.VNum? then CompareNumbers(cmp, ToNumber(w, a), ToNumber(w, b))
    else cmp == CmpEq <==> ToText(w, a) == ToText(w, b)
  }

  /** <, <=, > and >= compare numbers; a node set stands for each of its nodes. */
  ghost predicate CompareLess(w: World, cmp: Comparison, a: Value, b: Value) {
    exists x, y :: x in Numbers(w, a) && y in Numbers(w, b) && CompareNumbers(cmp, x, y)
  }

  ghost function Numbers(w: World, v: Value): set<Number> {
    if v.VNodes? then set x | x in v.nodes :: w.toNumber(Text(w, x)) else {ToNumber(w, v)}
  }

  /** The sum of the numbers of the nodes of a list, from left to right. */
  function ListSum(w: World, list: seq<Item>): Number {
    if list == [] then Finite(0.0) else Plus(ListSum(w, list[..|list| - 1]), w.toNumber(Text(w, list[|list| - 1])))
  }

  /** sum(): the numbers of the nodes of a set, added in document order. */
  ghost function SetSum(w: World, s: set<Item>): Number {
    ListSum(w, Ordered(s))
  }

  ghost predicate Comparable(w: World, cmp: Comparison, a: Value, b: Value) {
    if cmp == CmpEq || cmp == CmpNe then CompareEqual(w, cmp, a, b) else CompareLess(w, cmp, a, b)
  }

  /** translate(): the first occurrence of a character in `from` decides. */
  function TranslateText(s: string, from: string, to: string): string {
    if s == [] then []
    else
      TranslateText(s[..|s| - 1], from, to) +
      (var k := IndexOf(from, s[|s| - 1]);
       if k == |from| then [s[|s| - 1]] else if k < |to| then [to[k]] else [])
  }

  /** Translation by a table of 128 codes, where 128 stands for dropping the character. */
  function TranslateByTable(s: string, table: seq<nat>): string {
    if s == [] then []
    else
      var c := s[|s| - 1];
      TranslateByTable(s[..|s| - 1], table) +
      (if c as int >= |table| then [c] else if table[c as int] < 128 then [table[c as int] as char] else [])
  }

  /** What an expression means in a context. */
  ghost function Meaning(w: World, e: Expr, c: Context): Value
    requires w.t.Valid()
    decreases e, 0
  {
    match e
    case Or(l, r) => VBool(ToBool(w, Meaning(w, l, c)) || ToBool(w, Meaning(w, r, c)))
    case And(l, r) => VBool(ToBool(w, Meaning(w, l, c)) && ToBool(w, Meaning(w, r, c)))
    case Compare(cmp, l, r) =>
      VBool(Comparable(w, cmp, Meaning(w, l, c), Meaning(w, r, c)))
    case Arith(op, l, r) => VNum(w.arith(op, ToNumber(w, Meaning(w, l, c)), ToNumber(w, Meaning(w, r, c))))
    case Negate(a) => VNum(w.negate(ToNumber(w, Meaning(w, a, c))))
    case Union(l, r) => VNodes(ToNodes(Meaning(w, l, c)) + ToNodes(Meaning(w, r, c)))
    case Filter(b, p, _) =>
      var list := Ordered(ToNodes(Meaning(w, b, c)));
      VNodes(Elements(Kept(w, p, list, |list|)))
    case StringConstant(s) => VStr(s)
    case NumberConstant(n) => VNum(n)
    case Variable(name, ty) =>
      (match ty
       case TBool => VBool(w.boolVar(name))
       case TNum => VNum(w.numVar(name))
       case TStr => VStr(w.strVar(name))
       case TNodes => VNodes(w.nodesVar(name)))
    case Last => VNum(Natural(c.size))
    case Position => VNum(Natural(c.pos))
    case CountOf(a) => VNum(Natural(|ToNodes(Meaning(w, a, c))|))
    case SumOf(a) => VNum(SetSum(w, ToNodes(Meaning(w, a, c))))
    case Id(_) => VNodes({})
    case NameOf(f, a) =>
      var s := ToNodes(Meaning(w, a, c));
      VStr(if s == {} then "" else NameOfItem(w.t, f, First(s)))
    case Call(f, args) =>
      var vals := Arguments(w, f, 0, args, c);
      (match ResultType(f)
       case TBool => VBool(CallBool(w, f, c.x, vals))
       case TNum => VNum(CallNum(w, f, c.x, vals))
       case _ => VStr(CallStr(w, f, c.x, vals)))
    case Translate(a, from, to) =>
      VStr(TranslateText(ToText(w, Meaning(w, a, c)), ToText(w, Meaning(w, from, c)), ToText(w, Meaning(w, to, c))))
    case Step(b, axis, test, ps) =>
      var start := if b.None? then [c.x] else Ordered(ToNodes(Meaning(w, b.value, c)));
      VNodes(StepUnion(w, axis, test, ps, start))
    case StepRoot => VNodes(if InDoc(w.t, c.x) then {NodeItem(0)} else {})
    case OptTranslateTable(a, table) => VStr(TranslateByTable(ToText(w, Meaning(w, a, c)), table))
    case OptCompareAttribute(name, r) =>
      VBool(InDoc(w.t, c.x) && c.x.attr == -1 &&
            var attributes := w.t.data[c.x.node].attributes;
            var k := AttributeNamed(attributes, name);
            k < |attributes| && attributes[k].value == ToText(w, Meaning(w, r, c)) && IsXPathAttribute(name))
  }

  ghost function Arguments(w: World, f: Function, i: nat, args: Exprs, c: Context): seq<Value>
    requires w.t.Valid()
    decreases args, 0
  {
    match args
    case NoExprs => []
    case MoreExprs(e, rest) => [Converted(w, Meaning(w, e, c), ArgumentType(f, i))] + Arguments(w, f, i + 1, rest, c)
  }

  /** A predicate holds of a node: a number selects by position, anything else by its truth (section 2.4). */
  ghost predicate Holds(w: World, p: Expr, c: Context)
    requires w.t.Valid()
    decreases p, 1
  {
    if TypeOf(p) == TNum then NumberEq(ToNumber(w, Meaning(w, p, c)), Natural(c.pos)) else ToBool(w, Meaning(w, p, c))
  }

  /** What a predicate keeps of the first k nodes of a list. */
  ghost function Kept(w: World, p: Expr, list: seq<Item>, k: nat): seq<Item>
    requires w.t.Valid() && k <= |list|
    decreases p, 2, k
  {
    if k == 0 then []
    else
      Kept(w, p, list, k - 1) + (if Holds(w, p, Context(list[k - 1], k, |list|)) then [list[k - 1]] else [])
  }

  /** What is left of a list after all predicates of a step. */
  ghost function Surviving(w: World, ps: Predicates, list: seq<Item>): seq<Item>
    requires w.t.Valid()
    decreases ps, 3
  {
    match ps
    case NoPredicates => list
    case MorePredicates(p, _, rest) => Surviving(w, rest, Kept(w, p, list, |list|))
  }

  /** What a step selects from all nodes of a list. */
  ghost function StepUnion(w: World, axis: Axis, test: NodeTest, ps: Predicates, start: seq<Item>): set<Item>
    requires w.t.Valid()
    decreases ps, 4, |start|
  {
    if start == [] then {}
    else
      var n := |start| - 1;
      StepUnion(w, axis, test, ps, start[..n]) + Elements(Surviving(w, ps, StepList(w.t, axis, test, start[n])))
  }

  /** A step selects a node if it selects it from some node it starts from, in whatever order those are listed. */
  lemma {:induction false} StepUnionMember(w: World, axis: Axis, test: NodeTest, ps: Predicates, start: seq<Item>,
                                           y: Item)
    requires w.t.Valid()
    ensures y in StepUnion(w, axis, test, ps, start) <==>
            exists x :: x in start && y in Surviving(w, ps, StepList(w.t, axis, test, x))
    decreases |start|
  {
    hide StepList, Surviving, Tree.Valid;
    if start != [] {
      var front, last := start[..|start| - 1], start[|start| - 1];
      StepUnionMember(w, axis, test, ps, front, y);
      assert start == front + [last];
      if y in StepUnion(w, axis, test, ps, start) {
        assert y in StepUnion(w, axis, test, ps, front) || y in Surviving(w, ps, StepList(w.t, axis, test, last));
      } else {
        forall x | x in start
          ensures y !in Surviving(w, ps, StepList(w.t, axis, test, x))
        {
          assert x in front || x == last;
        }
      }
    }
  }
}
