/**
 The optimizer: it rewrites a parsed expression, bottom-up, into one that
 evaluates faster.  The rewritten expression means the same in every context.
 */
module XPathOptimize {
  import opened Common
  import opened XmlTree
  import opened XPathLibrary
  import opened XPathModel
  import opened XPathLists
  import opened XPathFacts
  import opened XPathEval

  /** [position() = e] becomes [e]. */
  function DropPosition(p: Expr): Expr {
    if p.Compare? && p.cmp == CmpEq && p.left == Position && TypeOf(p.right) == TNum then p.right else p
  }

  function Classify(p: Expr): PredicateClass {
    if p == NumberConstant(Finite(1.0)) then ClassConstantOne
    else if TypeOf(p) == TNum && (p.NumberConstant? || p.Variable? || p.Last?) then ClassConstant
    else if TypeOf(p) != TNum && IsPosInv(p) then ClassPosInv
    else ClassDefault
  }

  /** is_posinv_step. */
  predicate IsPosInvStep(ps: Predicates) {
    match ps
    case NoPredicates => true
    case MorePredicates(_, cls, rest) => cls == ClassPosInv && IsPosInvStep(rest)
  }

  /** The step that // stands for: descendant-or-self::node(). */
  predicate IsAnyDescendant(e: Expr) {
    e.Step? && e.axis == DescendantOrSelf && e.test == TestNode && e.predicates == NoPredicates
  }

  function Collapsed(axis: Axis): Option<Axis> {
    match axis
    case Child | Descendant => Some(Descendant)
    case Self | DescendantOrSelf => Some(DescendantOrSelf)
    case _ => None
  }

  /** Every character that a translation table has to store fits it. */
  predicate TableFits(from: string, to: string) {
    forall i :: 0 <= i < |from| ==> from[i] as int < 128 && (i < |to| ==> to[i] as int < 128)
  }

  function TableEntry(from: string, to: string, c: nat): nat
    requires c < 128
  {
    var k := IndexOf(from, c as char);
    if k == |from| then c else if k < |to| then to[k] as nat else 128
  }

  function TableOf(from: string, to: string): (table: seq<nat>)
    ensures |table| == 128
  {
    seq(128, c requires 0 <= c < 128 => TableEntry(from, to, c))
  }

  /** @name = 'value'. */
  predicate IsAttributeComparison(e: Expr) {
    e.Compare? && e.cmp == CmpEq && e.left.Step? && e.left.base'.None? && e.left.axis == AttributeAxis &&
    e.left.test.TestName? && e.left.predicates == NoPredicates && IsConstantText(e.right)
  }

  /** optimize_self, on an expression whose parts are optimized. */
  function OptimizeSelf(e: Expr): Expr {
    match e
    case Filter(b, p, _) => Filter(b, DropPosition(p), Classify(DropPosition(p)))
    case Step(b, axis, test, ps) =>
      if b.Some? && IsAnyDescendant(b.value) && Collapsed(axis).Some? && IsPosInvStep(ps)
      then Step(b.value.base', Collapsed(axis).value, test, ps)
      else e
    case Translate(a, from, to) =>
      if from.StringConstant? && to.StringConstant? && TableFits(from.s, to.s)
      then OptTranslateTable(a, TableOf(from.s, to.s))
      else e
    case Compare(_, l, r) => if IsAttributeComparison(e) then OptCompareAttribute(l.test.name, r) else e
    case _ => e
  }

  /** optimize. */
  function Optimize(e: Expr): Expr
    decreases e, 1
  {
    OptimizeSelf(OptimizeParts(e))
  }

  function OptimizeParts(e: Expr): Expr
    decreases e, 0
  {
    match e
    case Or(l, r) => Or(Optimize(l), Optimize(r))
    case And(l, r) => And(Optimize(l), Optimize(r))
    case Compare(cmp, l, r) => Compare(cmp, Optimize(l), Optimize(r))
    case Arith(op, l, r) => Arith(op, Optimize(l), Optimize(r))
    case Negate(a) => Negate(Optimize(a))
    case Union(l, r) => Union(Optimize(l), Optimize(r))
    case Filter(b, p, _) => Filter(Optimize(b), Optimize(p), ClassDefault)
    case CountOf(a) => CountOf(Optimize(a))
    case SumOf(a) => SumOf(Optimize(a))
    case Id(a) => Id(Optimize(a))
    case NameOf(f, a) => NameOf(f, Optimize(a))
    case Call(f, args) => Call(f, OptimizeArguments(args))
    case Translate(a, from, to) => Translate(Optimize(a), Optimize(from), Optimize(to))
    case Step(b, axis, test, ps) =>
      Step(if b.None? then None else Some(Optimize(b.value)), axis, test, OptimizePredicates(ps))
    case OptTranslateTable(a, table) => OptTranslateTable(Optimize(a), table)
    case _ => e
  }

  function OptimizeArguments(args: Exprs): Exprs
    decreases args, 0
  {
    match args
    case NoExprs => NoExprs
    case MoreExprs(e, rest) => MoreExprs(Optimize(e), OptimizeArguments(rest))
  }

  function OptimizePredicates(ps: Predicates): Predicates
    decreases ps, 0
  {
    match ps
    case NoPredicates => NoPredicates
    case MorePredicates(p, _, rest) =>
      var q := DropPosition(Optimize(p));
      MorePredicates(q, Classify(q), OptimizePredicates(rest))
  }

  // Types and well-formedness

  lemma OptimizeSelfShape(e: Expr)
    requires WellFormed(e)
    ensures WellFormed(OptimizeSelf(e)) && TypeOf(OptimizeSelf(e)) == TypeOf(e)
  {
  }

  lemma {:induction false} OptimizeShape(e: Expr)
    requires WellFormed(e)
    ensures WellFormed(Optimize(e)) && TypeOf(Optimize(e)) == TypeOf(e)
    decreases e, 1
  {
    hide OptimizeSelf, TableOf;
    PartsShape(e);
    OptimizeSelfShape(OptimizeParts(e));
  }

  lemma {:induction false} PartsShape(e: Expr)
    requires WellFormed(e)
    ensures WellFormed(OptimizeParts(e)) && TypeOf(OptimizeParts(e)) == TypeOf(e)
    decreases e, 0, 2
  {
    if e.Or? || e.And? || e.Compare? || e.Arith? || e.Union? {
      OperandsShape(e);
    } else if e.Negate? || e.CountOf? || e.SumOf? || e.Id? || e.NameOf? || e.OptTranslateTable? {
      ArgumentShape(e, e.arg);
    } else if e.Filter? || e.Translate? || e.Call? || e.Step? {
      OthersShape(e);
    }
    hide Optimize, OptimizeArguments, OptimizePredicates;
  }

  lemma {:induction false} OperandsShape(e: Expr)
    requires WellFormed(e) && (e.Or? || e.And? || e.Compare? || e.Arith? || e.Union?)
    ensures WellFormed(OptimizeParts(e)) && TypeOf(OptimizeParts(e)) == TypeOf(e)
    decreases e, 0, 0
  {
    hide OptimizeSelf, Optimize;
    OptimizeShape(e.left);
    OptimizeShape(e.right);
  }

  lemma {:induction false} OthersShape(e: Expr)
    requires WellFormed(e) && (e.Filter? || e.Translate? || e.Call? || e.Step?)
    ensures WellFormed(OptimizeParts(e)) && TypeOf(OptimizeParts(e)) == TypeOf(e)
    decreases e, 0, 1
  {
    hide OptimizeSelf, Optimize;
    match e
    case Filter(b, p, _) => OptimizeShape(b); OptimizeShape(p);
    case Translate(a, from, to) => OptimizeShape(a); OptimizeShape(from); OptimizeShape(to);
    case Call(_, args) => ArgumentsShape(args);
    case Step(_, _, _, _) => StepShape(e);
  }

  lemma {:induction false} StepShape(e: Expr)
    requires WellFormed(e) && e.Step?
    ensures WellFormed(OptimizeParts(e)) && TypeOf(OptimizeParts(e)) == TypeOf(e)
    decreases e, 0, 0
  {
    hide OptimizeSelf, Optimize;
    match e
    case Step(b, _, _, ps) =>
      if b.Some? {
        OptimizeShape(b.value);
      }
      PredicatesShape(ps);
  }

  lemma {:induction false} ArgumentShape(e: Expr, a: Expr)
    requires WellFormed(e) && (e.Negate? || e.CountOf? || e.SumOf? || e.Id? || e.NameOf? || e.OptTranslateTable?)
    requires a == e.arg
    ensures WellFormed(OptimizeParts(e)) && TypeOf(OptimizeParts(e)) == TypeOf(e)
    decreases e, 0, 0
  {
    OptimizeShape(a);
  }

  lemma {:induction false} ArgumentsShape(args: Exprs)
    requires AreWellFormed(args)
    ensures AreWellFormed(OptimizeArguments(args))
    decreases args, 0
  {
    if args.MoreExprs? {
      OptimizeShape(args.head);
      ArgumentsShape(args.tail);
    }
  }

  lemma {:induction false} PredicatesShape(ps: Predicates)
    requires PredicatesWellFormed(ps)
    ensures PredicatesWellFormed(OptimizePredicates(ps))
    decreases ps, 0
  {
    if ps.MorePredicates? {
      OptimizeShape(ps.first);
      PredicatesShape(ps.rest);
    }
  }

  // The meaning is kept: predicates

  lemma HoldsDropped(w: World, p: Expr, c: Context)
    requires w.t.Valid()
    ensures Holds(w, DropPosition(p), c) == Holds(w, p, c)
  {
    if DropPosition(p) != p {
      var v := Meaning(w, p.right, c);
      TypeSound(w, p.right, c);
      assert Meaning(w, p.left, c) == VNum(Natural(c.pos));
      assert Meaning(w, p, c) == VBool(CompareEqual(w, CmpEq, VNum(Natural(c.pos)), v));
    }
  }

  lemma {:induction false} KeptSame(w: World, p: Expr, q: Expr, list: seq<Item>, k: nat)
    requires w.t.Valid() && k <= |list| && forall c :: Holds(w, p, c) == Holds(w, q, c)
    ensures Kept(w, p, list, k) == Kept(w, q, list, k)
  {
    hide Holds;
    if k != 0 {
      KeptSame(w, p, q, list, k - 1);
    }
  }

  lemma {:induction false} StepUnionSame(w: World, axis: Axis, test: NodeTest, ps: Predicates, qs: Predicates,
                                         start: seq<Item>)
    requires w.t.Valid() && forall list :: Surviving(w, ps, list) == Surviving(w, qs, list)
    ensures StepUnion(w, axis, test, ps, start) == StepUnion(w, axis, test, qs, start)
    decreases |start|
  {
    hide StepList, Surviving;
    if start != [] {
      StepUnionSame(w, axis, test, ps, qs, start[..|start| - 1]);
    }
  }

  // The meaning is kept: descendant-or-self::node() merged into the next step

  ghost predicate AllHold(w: World, ps: Predicates, y: Item)
    requires w.t.Valid()
  {
    match ps
    case NoPredicates => true
    case MorePredicates(p, _, rest) => Holds(w, p, Context(y, 1, 1)) && AllHold(w, rest, y)
  }

  lemma {:induction false} SurvivingPosInv(w: World, ps: Predicates, list: seq<Item>)
    requires w.t.Valid() && PredicatesWellFormed(ps) && IsPosInvStep(ps)
    ensures forall y :: y in Surviving(w, ps, list) <==> y in list && AllHold(w, ps, y)
    decreases ps
  {
    if ps.MorePredicates? {
      var kept := Kept(w, ps.first, list, |list|);
      KeptPosInv(w, ps.first, list, |list|);
      assert list[..|list|] == list;
      SurvivingPosInv(w, ps.rest, kept);
    }
  }

  /** A node is found by two steps if and only if it is found by the merged one. */
  lemma MergedSelects(t: Tree, axis: Axis, test: NodeTest, x: Item, z: Item, y: Item)
    requires t.Valid() && Collapsed(axis).Some?
    requires Selects(t, DescendantOrSelf, TestNode, x, z) && Selects(t, axis, test, z, y)
    ensures Selects(t, Collapsed(axis).value, test, x, y)
  {
    if z.attr == -1 {
      if x.node < z.node {
        t.SubtreeInside(x.node, z.node);
      }
      if axis == Child {
        FirstInside(t, z.node, y.node);
      }
    }
  }

  lemma FirstInside(t: Tree, i: nat, j: nat)
    requires t.Valid() && i < t.Count() && 0 < j < t.Count() && t.parent[j] == i
    ensures i < j < i + t.size[i]
  {
  }

  lemma MergedWitness(t: Tree, axis: Axis, test: NodeTest, x: Item, y: Item) returns (z: Item)
    requires t.Valid() && Collapsed(axis).Some? && Selects(t, Collapsed(axis).value, test, x, y)
    ensures Selects(t, DescendantOrSelf, TestNode, x, z) && Selects(t, axis, test, z, y)
  {
    match axis
    case Child =>
      z := NodeItem(t.parent[y.node]);
      t.AncestorOfParent(x.node, y.node);
    case Self => z := y;
    case _ => z := x;
  }

  lemma MergedUnion(w: World, axis: Axis, test: NodeTest, ps: Predicates, start: seq<Item>, middle: seq<Item>)
    requires w.t.Valid() && PredicatesWellFormed(ps) && IsPosInvStep(ps) && Collapsed(axis).Some?
    requires forall z :: z in middle <==> z in StepUnion(w, DescendantOrSelf, TestNode, NoPredicates, start)
    ensures StepUnion(w, Collapsed(axis).value, test, ps, start) == StepUnion(w, axis, test, ps, middle)
  {
    hide StepUnion, Surviving, StepList, Selects, AllHold, Collapsed, Tree.Nested;
    forall y
      ensures y in StepUnion(w, Collapsed(axis).value, test, ps, start) <==> y in StepUnion(w, axis, test, ps, middle)
    {
      PosInvMember(w, Collapsed(axis).value, test, ps, start, y);
      PosInvMember(w, axis, test, ps, middle, y);
      if AllHold(w, ps, y) {
        if x :| x in start && Selects(w.t, Collapsed(axis).value, test, x, y) {
          var z := MergedWitness(w.t, axis, test, x, y);
          PosInvMember(w, DescendantOrSelf, TestNode, NoPredicates, start, z);
          NoneHold(w, z);
        }
        if z :| z in middle && Selects(w.t, axis, test, z, y) {
          PosInvMember(w, DescendantOrSelf, TestNode, NoPredicates, start, z);
          var x :| x in start && Selects(w.t, DescendantOrSelf, TestNode, x, z);
          MergedSelects(w.t, axis, test, x, z, y);
        }
      }
    }
  }

  lemma NoneHold(w: World, y: Item)
    requires w.t.Valid()
    ensures AllHold(w, NoPredicates, y)
  {
  }

  /** A step with position-invariant predicates selects a node, from whichever node, if the predicates hold of it. */
  lemma PosInvMember(w: World, axis: Axis, test: NodeTest, ps: Predicates, start: seq<Item>, y: Item)
    requires w.t.Valid() && PredicatesWellFormed(ps) && IsPosInvStep(ps)
    ensures y in StepUnion(w, axis, test, ps, start) <==>
            AllHold(w, ps, y) && exists x :: x in start && Selects(w.t, axis, test, x, y)
  {
    hide StepUnion, Surviving, StepList, Selects, AllHold, Tree.Nested;
    StepUnionMember(w, axis, test, ps, start, y);
    forall x
      ensures y in Surviving(w, ps, StepList(w.t, axis, test, x)) <==>
        AllHold(w, ps, y) && Selects(w.t, axis, test, x, y)
    {
      SurvivingPosInv(w, ps, StepList(w.t, axis, test, x));
      StepListExact(w.t, axis, test, x);
    }
  }

  lemma MergedStep(w: World, e: Expr, c: Context)
    requires w.t.Valid() && WellFormed(e) && e.Step? && OptimizeSelf(e) != e
    ensures Meaning(w, OptimizeSelf(e), c) == Meaning(w, e, c)
  {
    hide StepUnion, Surviving, StepList, Ordered;
    var inner := e.base'.value;
    var start := if inner.base'.None? then [c.x] else Ordered(ToNodes(Meaning(w, inner.base'.value, c)));
    var found := ToNodes(Meaning(w, inner, c));
    assert found == StepUnion(w, DescendantOrSelf, TestNode, NoPredicates, start);
    OrderedExact(found);
    MergedUnion(w, e.axis, e.test, e.predicates, start, Ordered(found));
  }

  // The meaning is kept: translate() and @name = 'value'

  lemma {:induction false} TableTranslates(s: string, from: string, to: string)
    requires TableFits(from, to) && NulFree(from) && NulFree(to)
    ensures TranslateByTable(s, TableOf(from, to)) == TranslateText(s, from, to)
  {
    if s != [] {
      TableTranslates(s[..|s| - 1], from, to);
      var c := s[|s| - 1];
      var k := IndexOf(from, c);
      if c as int < 128 {
        assert c as int as char == c;
      } else {
        assert k == |from|;
      }
    }
  }

  predicate Agree(a: Attribute, b: Attribute) {
    IsXPathAttribute(a.name) && a.name == b.name ==> a.value == b.value
  }

  /** Of the attributes of one name at an element, all have one value; namespace declarations do not count. */
  ghost predicate AgreeingAttributes(t: Tree) {
    forall i, j, k :: 0 <= i < t.Count() && 0 <= j < k < |t.data[i].attributes| ==>
      Agree(t.data[i].attributes[j], t.data[i].attributes[k])
  }

  /** Then the first attribute of a name speaks for all of them. */
  lemma AttributeComparison(w: World, e: Expr, c: Context)
    requires w.t.Valid() && AgreeingAttributes(w.t) && WellFormed(e) && IsAttributeComparison(e)
    ensures Meaning(w, OptCompareAttribute(e.left.test.name, e.right), c) == Meaning(w, e, c)
  {
    hide StepUnion, Surviving, StepList, Tree.Nested, AgreeingAttributes, Selects;
    var name := e.left.test.name;
    var found := ToNodes(Meaning(w, e.left, c));
    var text := ToText(w, Meaning(w, e.right, c));
    assert Meaning(w, e.left, c) == VNodes(found);
    assert Meaning(w, e.right, c).VStr?;
    assert Meaning(w, e, c) == VBool(exists x :: x in found && text == Text(w, x));
    AttributeNodes(w, name, c.x);
    AttributeFound(w, name, c.x, found, text);
  }

  lemma AttributeNodes(w: World, name: string, x: Item)
    requires w.t.Valid()
    ensures forall y :: y in StepUnion(w, AttributeAxis, TestName(name), NoPredicates, [x]) <==>
      Selects(w.t, AttributeAxis, TestName(name), x, y)
  {
    hide StepUnion, Selects, AllHold;
    forall y
      ensures y in StepUnion(w, AttributeAxis, TestName(name), NoPredicates, [x]) <==>
        Selects(w.t, AttributeAxis, TestName(name), x, y)
    {
      PosInvMember(w, AttributeAxis, TestName(name), NoPredicates, [x], y);
      NoneHold(w, y);
    }
  }

  lemma AttributeFound(w: World, name: string, x: Item, found: set<Item>, text: string)
    requires w.t.Valid() && AgreeingAttributes(w.t)
    requires forall y :: y in found <==> Selects(w.t, AttributeAxis, TestName(name), x, y)
    ensures (exists y :: y in found && text == Text(w, y)) <==>
            (InDoc(w.t, x) && x.attr == -1 &&
             var attributes := w.t.data[x.node].attributes;
             var k := AttributeNamed(attributes, name);
             k < |attributes| && attributes[k].value == text && IsXPathAttribute(name))
  {
    if InDoc(w.t, x) && x.attr == -1 {
      var attributes := w.t.data[x.node].attributes;
      var k := AttributeNamed(attributes, name);
      assert k < |attributes| ==> Item(x.node, k).node == x.node;
      if y :| y in found && text == Text(w, y) {
        assert attributes[y.attr].name == name;
      }
      if k < |attributes| && IsXPathAttribute(name) {
        assert Item(x.node, k) in found;
      }
    }
  }

  // The meaning is kept: whole expressions

  lemma SelfSound(w: World, e: Expr, c: Context)
    requires w.t.Valid() && AgreeingAttributes(w.t) && WellFormed(e)
    ensures Meaning(w, OptimizeSelf(e), c) == Meaning(w, e, c)
  {
    hide Tree.Nested, Kept, StepUnion, TableOf, AgreeingAttributes;
    if OptimizeSelf(e) != e {
      match e
      case Filter(_, _, _) => FilterItselfSound(w, e, c);
      case Step(_, _, _, _) => MergedStep(w, e, c);
      case Translate(a, from, to) =>
        TableTranslates(ToText(w, Meaning(w, a, c)), from.s, to.s);
      case Compare(_, _, _) => AttributeComparison(w, e, c);
    }
  }

  lemma FilterItselfSound(w: World, e: Expr, c: Context)
    requires w.t.Valid() && WellFormed(e) && e.Filter?
    ensures Meaning(w, OptimizeSelf(e), c) == Meaning(w, e, c)
  {
    hide Tree.Nested, Kept;
    match e
    case Filter(b, p, _) =>
      var list := Ordered(ToNodes(Meaning(w, b, c)));
      forall d
        ensures Holds(w, DropPosition(p), d) == Holds(w, p, d)
      {
        HoldsDropped(w, p, d);
      }
      KeptSame(w, DropPosition(p), p, list, |list|);
  }

  /** Optimizing an expression does not change what it means, in any document and any context. */
  lemma {:induction false} OptimizeSound(w: World, e: Expr, c: Context)
    requires w.t.Valid() && AgreeingAttributes(w.t) && WellFormed(e)
    ensures Meaning(w, Optimize(e), c) == Meaning(w, e, c)
    decreases e, 1
  {
    hide Meaning, OptimizeSelf, Tree.Nested, AgreeingAttributes;
    PartsSound(w, e, c);
    PartsShape(e);
    SelfSound(w, OptimizeParts(e), c);
  }

  lemma {:induction false} PartsSound(w: World, e: Expr, c: Context)
    requires w.t.Valid() && AgreeingAttributes(w.t) && WellFormed(e)
    ensures Meaning(w, OptimizeParts(e), c) == Meaning(w, e, c)
    decreases e, 0, 1
  {
    hide Optimize, OptimizeSelf, Tree.Valid, AgreeingAttributes, Meaning, WellFormed;
    if e.Or? || e.And? || e.Compare? || e.Arith? || e.Union? {
      OperandsSound(w, e, c);
    } else if e.Negate? || e.CountOf? || e.SumOf? || e.Id? || e.NameOf? || e.OptTranslateTable? {
      ArgumentSound(w, e, c);
    } else if e.Filter? {
      FilterSound(w, e, c);
    } else if e.Step? {
      StepSound(w, e, c);
    } else if e.Call? || e.Translate? {
      CallSound(w, e, c);
    } else {
      assert OptimizeParts(e) == e;
    }
  }

  lemma {:induction false} ArgumentSound(w: World, e: Expr, c: Context)
    requires w.t.Valid() && AgreeingAttributes(w.t) && WellFormed(e)
    requires e.Negate? || e.CountOf? || e.SumOf? || e.Id? || e.NameOf? || e.OptTranslateTable?
    ensures Meaning(w, OptimizeParts(e), c) == Meaning(w, e, c)
    decreases e, 0, 0
  {
    hide Optimize, OptimizeSelf, Tree.Nested, AgreeingAttributes, Comparable;
    OptimizeSound(w, e.arg, c);
  }

  lemma {:induction false} CallSound(w: World, e: Expr, c: Context)
    requires w.t.Valid() && AgreeingAttributes(w.t) && WellFormed(e) && (e.Call? || e.Translate?)
    ensures Meaning(w, OptimizeParts(e), c) == Meaning(w, e, c)
    decreases e, 0, 0
  {
    hide Optimize, OptimizeSelf, Tree.Nested, AgreeingAttributes, Comparable;
    match e
    case Call(f, args) => ArgumentsSound(w, f, 0, args, c);
    case Translate(a, from, to) => OptimizeSound(w, a, c); OptimizeSound(w, from, c); OptimizeSound(w, to, c);
  }

  lemma {:induction false} OperandsSound(w: World, e: Expr, c: Context)
    requires w.t.Valid() && AgreeingAttributes(w.t) && WellFormed(e)
    requires e.Or? || e.And? || e.Compare? || e.Arith? || e.Union?
    ensures Meaning(w, OptimizeParts(e), c) == Meaning(w, e, c)
    decreases e, 0, 0
  {
    hide Optimize, OptimizeSelf, Tree.Nested, AgreeingAttributes, Comparable;
    OptimizeSound(w, e.left, c);
    OptimizeSound(w, e.right, c);
  }

  lemma {:induction false} ArgumentsSound(w: World, f: Function, i: nat, args: Exprs, c: Context)
    requires w.t.Valid() && AgreeingAttributes(w.t) && AreWellFormed(args)
    ensures Arguments(w, f, i, OptimizeArguments(args), c) == Arguments(w, f, i, args, c)
    decreases args, 0
  {
    hide Optimize, Tree.Nested, AgreeingAttributes, Meaning;
    if args.MoreExprs? {
      OptimizeSound(w, args.head, c);
      ArgumentsSound(w, f, i + 1, args.tail, c);
    }
  }

  /** A predicate holds of the same nodes after it has been optimized. */
  lemma {:induction false} PredicateSound(w: World, p: Expr, list: seq<Item>)
    requires w.t.Valid() && AgreeingAttributes(w.t) && WellFormed(p)
    ensures
      Kept(w, DropPosition(Optimize(p)), list, |list|) == Kept(w, Optimize(p), list, |list|) == Kept(w, p, list, |list|)
    decreases p, 2
  {
    hide Meaning, Optimize, DropPosition, Tree.Nested, AgreeingAttributes, Kept;
    OptimizeShape(p);
    forall c
      ensures Holds(w, DropPosition(Optimize(p)), c) == Holds(w, Optimize(p), c) == Holds(w, p, c)
    {
      OptimizeSound(w, p, c);
      HoldsDropped(w, Optimize(p), c);
    }
    KeptSame(w, DropPosition(Optimize(p)), Optimize(p), list, |list|);
    KeptSame(w, Optimize(p), p, list, |list|);
  }

  lemma {:induction false} FilterSound(w: World, e: Expr, c: Context)
    requires w.t.Valid() && AgreeingAttributes(w.t) && WellFormed(e) && e.Filter?
    ensures Meaning(w, OptimizeParts(e), c) == Meaning(w, e, c)
    decreases e, 0, 0
  {
    hide Optimize, Tree.Nested, AgreeingAttributes, Kept, Ordered;
    OptimizeSound(w, e.base, c);
    PredicateSound(w, e.filter, Ordered(ToNodes(Meaning(w, e.base, c))));
  }

  lemma {:induction false} PredicatesSound(w: World, ps: Predicates, list: seq<Item>)
    requires w.t.Valid() && AgreeingAttributes(w.t) && PredicatesWellFormed(ps)
    ensures Surviving(w, OptimizePredicates(ps), list) == Surviving(w, ps, list)
    decreases ps, 0
  {
    hide Optimize, DropPosition, Tree.Nested, AgreeingAttributes, Kept;
    if ps.MorePredicates? {
      PredicateSound(w, ps.first, list);
      PredicatesSound(w, ps.rest, Kept(w, ps.first, list, |list|));
    }
  }

  lemma {:induction false} StepSound(w: World, e: Expr, c: Context)
    requires w.t.Valid() && AgreeingAttributes(w.t) && WellFormed(e) && e.Step?
    ensures Meaning(w, OptimizeParts(e), c) == Meaning(w, e, c)
    decreases e, 0, 0
  {
    hide Optimize, Tree.Nested, AgreeingAttributes, StepUnion, Surviving, Ordered;
    if e.base'.Some? {
      OptimizeSound(w, e.base'.value, c);
    }
    forall list
      ensures Surviving(w, OptimizePredicates(e.predicates), list) == Surviving(w, e.predicates, list)
    {
      PredicatesSound(w, e.predicates, list);
    }
    var start := if e.base'.None? then [c.x] else Ordered(ToNodes(Meaning(w, e.base'.value, c)));
    StepUnionSame(w, e.axis, e.test, OptimizePredicates(e.predicates), e.predicates, start);
  }

  /** Attribute values are native strings. */
  ghost predicate NativeValues(t: Tree) {
    forall i, k :: 0 <= i < t.Count() && 0 <= k < |t.data[i].attributes| ==> NulFree(t.data[i].attributes[k].value)
  }

  function AttributeIs(name: string, value: string): Expr {
    Compare(CmpEq, Step(None, AttributeAxis, TestName(name), NoPredicates), StringConstant(value))
  }

  lemma OptimizedAttributeIs(name: string, value: string)
    ensures Optimize(AttributeIs(name, value)) == OptCompareAttribute(name, StringConstant(value))
  {
    var e := AttributeIs(name, value);
    assert OptimizePredicates(NoPredicates) == NoPredicates;
    assert OptimizeParts(e.left) == e.left && OptimizeSelf(e.left) == e.left;
    assert OptimizeParts(e.right) == e.right && OptimizeSelf(e.right) == e.right;
    assert Optimize(e.left) == e.left && Optimize(e.right) == e.right;
    assert OptimizeParts(e) == e;
  }

  lemma AttributeIsFormed(name: string, value: string)
    requires NulFree(value)
    ensures WellFormed(AttributeIs(name, value))
  {
    hide NulFree;
    var e := AttributeIs(name, value);
    assert PredicatesWellFormed(NoPredicates);
    assert WellFormed(e.left) && WellFormed(e.right);
  }

  lemma AttributeIsMeans(w: World, name: string, value: string, c: Context)
    requires w.t.Valid()
    ensures Meaning(w, AttributeIs(name, value), c) ==
            VBool(exists y :: Selects(w.t, AttributeAxis, TestName(name), c.x, y) && value == Text(w, y))
  {
    hide StepUnion, Selects, Tree.Nested;
    var e := AttributeIs(name, value);
    var found := ToNodes(Meaning(w, e.left, c));
    AttributeNodes(w, name, c.x);
    assert Meaning(w, e.left, c) == VNodes(found);
    assert Meaning(w, e.right, c) == VStr(value);
    assert Meaning(w, e, c) == VBool(exists y :: y in found && value == Text(w, y));
  }

  lemma OptimizedMeans(w: World, name: string, value: string, c: Context, first: nat)
    requires w.t.Valid() && InDoc(w.t, c.x) && first < |w.t.data[c.x.node].attributes|
    requires first == AttributeNamed(w.t.data[c.x.node].attributes, name)
    ensures Meaning(w, OptCompareAttribute(name, StringConstant(value)), c) == VBool(true) ==>
            w.t.data[c.x.node].attributes[first].value == value
  {
    hide Tree.Nested;
    assert Meaning(w, StringConstant(value), c) == VStr(value);
  }

  /** If two attributes of one name have different values, comparing with one of them gives two answers. */
  lemma ConflictChanges(w: World, i: nat, j: nat, k: nat)
    requires w.t.Valid() && NativeValues(w.t) && i < w.t.Count() && j < k < |w.t.data[i].attributes|
    requires !Agree(w.t.data[i].attributes[j], w.t.data[i].attributes[k])
    ensures exists e, c :: WellFormed(e) && Meaning(w, Optimize(e), c) != Meaning(w, e, c)
  {
    hide Meaning, Optimize, WellFormed, Tree.Nested;
    var attributes := w.t.data[i].attributes;
    var name := attributes[j].name;
    var first := AttributeNamed(attributes, name);
    var other := if attributes[first].value == attributes[j].value then k else j;
    var value := attributes[other].value;
    var e, c := AttributeIs(name, value), Context(NodeItem(i), 1, 1);
    OptimizedAttributeIs(name, value);
    AttributeIsMeans(w, name, value, c);
    OptimizedMeans(w, name, value, c, first);
    assert Selects(w.t, AttributeAxis, TestName(name), NodeItem(i), Item(i, other)) && Text(w, Item(i, other)) == value;
    assert NulFree(w.t.data[i].attributes[other].value);
    AttributeIsFormed(name, value);
  }

  /** The optimizer keeps the meaning of every expression exactly if the attributes of one name agree. */
  lemma OptimizeSoundExactly(w: World)
    requires w.t.Valid() && NativeValues(w.t)
    ensures AgreeingAttributes(w.t) <==> forall e, c :: WellFormed(e) ==> Meaning(w, Optimize(e), c) == Meaning(w, e, c)
  {
    hide Meaning, Optimize, WellFormed, Tree.Nested;
    if AgreeingAttributes(w.t) {
      forall e, c | WellFormed(e)
        ensures Meaning(w, Optimize(e), c) == Meaning(w, e, c)
      {
        OptimizeSound(w, e, c);
      }
    } else {
      var i, j, k :| 0 <= i < w.t.Count() && 0 <= j < k < |w.t.data[i].attributes| &&
        !Agree(w.t.data[i].attributes[j], w.t.data[i].attributes[k]);
      ConflictChanges(w, i, j, k);
    }
  }

  // Compiled queries

  /** A node-set query, optimized as xpath_query does and evaluated, selects what the query as written means. */
  method SelectNodes(w: World, rt: Runtime, query: Expr, c: Context, mode: Mode) returns (ns: RawSet)
    requires Ready(w, rt) && WellFormed(query) && TypeOf(query) == TNodes
    ensures Answers(ns, mode, ToNodes(Meaning(w, query, c)))
  {
    hide WellFormed, Meaning, Optimize, Answers;
    OptimizeShape(query);
    OptimizeSound(w, query, c);
    ns := EvalNodeSet(w, rt, Optimize(query), c, mode);
  }

  /** select_node: the first node of the query's result in document order, found without computing all of it. */
  method SelectNode(w: World, rt: Runtime, query: Expr, c: Context) returns (first: Option<Item>)
    requires Ready(w, rt) && WellFormed(query) && TypeOf(query) == TNodes
    ensures
      var s := ToNodes(Meaning(w, query, c));
      first == if s == {} then None else Some(First(s))
  {
    hide WellFormed, Meaning, Optimize;
    OptimizeShape(query);
    OptimizeSound(w, query, c);
    first := FirstNode(w, rt, Optimize(query), c);
  }

  method EvaluateBoolean(w: World, rt: Runtime, query: Expr, c: Context) returns (b: bool)
    requires Ready(w, rt) && WellFormed(query)
    ensures b == ToBool(w, Meaning(w, query, c))
  {
    hide WellFormed, Meaning, Optimize;
    OptimizeShape(query);
    OptimizeSound(w, query, c);
    b := EvalBoolean(w, rt, Optimize(query), c);
  }

  method EvaluateNumber(w: World, rt: Runtime, query: Expr, c: Context) returns (n: Number)
    requires Ready(w, rt) && WellFormed(query)
    ensures n == ToNumber(w, Meaning(w, query, c))
  {
    hide WellFormed, Meaning, Optimize;
    OptimizeShape(query);
    OptimizeSound(w, query, c);
    n := EvalNumber(w, rt, Optimize(query), c);
  }

  method EvaluateString(w: World, rt: Runtime, query: Expr, c: Context) returns (s: string)
    requires Ready(w, rt) && WellFormed(query)
    ensures s == ToText(w, Meaning(w, query, c))
  {
    hide WellFormed, Meaning, Optimize;
    OptimizeShape(query);
    OptimizeSound(w, query, c);
    s := EvalString(w, rt, Optimize(query), c);
  }
}
