/**
 The comparisons of section 3.4 of XPath 1.0, and where those of the evaluator differ.
 */
module XPathConformance {

  import opened Common
  import opened XmlTree
  import opened XPathFacts
  import opened XPathLibrary
  import opened XPathLists
  import opened XPathModel

  predicate IsRelational(cmp: Comparison) {
    cmp != CmpEq && cmp != CmpNe
  }

  predicate HasType(v: Value, ty: Type) {
    match ty
    case TBool => v.VBool?
    case TNum => v.VNum?
    case TStr => v.VStr?
    case TNodes => v.VNodes?
  }

  /** Neither operand is a node set. */
  ghost predicate PlainComparison(w: World, cmp: Comparison, a: Value, b: Value) {
    if IsRelational(cmp) then CompareNumbers(cmp, ToNumber(w, a), ToNumber(w, b))
    else if a.VBool? || b.VBool? then cmp == CmpEq <==> ToBool(w, a) == ToBool(w, b)
    else if a.VNum? || b.VNum? then CompareNumbers(cmp, ToNumber(w, a), ToNumber(w, b))
    else cmp == CmpEq <==> ToText(w, a) == ToText(w, b)
  }

  /** What a node stands for beside an operand: its number beside a number, and its string otherwise. */
  ghost function Stand(w: World, x: Item, other: Value): Value {
    if other.VNum? then VNum(w.toNumber(Text(w, x))) else VStr(Text(w, x))
  }

  /** The comparison as section 3.4 defines it: beside a boolean, a node set is converted to a boolean. */
  ghost predicate StandardComparison(w: World, cmp: Comparison, a: Value, b: Value) {
    if a.VNodes? && b.VNodes? then
      exists x, y :: x in a.nodes && y in b.nodes && PlainComparison(w, cmp, VStr(Text(w, x)), VStr(Text(w, y)))
    else if a.VNodes? && !b.VBool? then exists x :: x in a.nodes && PlainComparison(w, cmp, Stand(w, x, b), b)
    else if b.VNodes? && !a.VBool? then exists y :: y in b.nodes && PlainComparison(w, cmp, a, Stand(w, y, a))
    else PlainComparison(w, cmp, Standing(w, a), Standing(w, b))
  }

  ghost function Standing(w: World, v: Value): Value {
    if v.VNodes? then VBool(ToBool(w, v)) else v
  }

  /** One operand is a boolean and the other one a node set. */
  predicate IsMixed(a: Type, b: Type) {
    (a == TBool && b == TNodes) || (a == TNodes && b == TBool)
  }

  lemma EqualAgrees(w: World, cmp: Comparison, a: Value, b: Value)
    requires !IsRelational(cmp)
    ensures CompareEqual(w, cmp, a, b) == StandardComparison(w, cmp, a, b)
  {
    if a.VNodes? && b.VNodes? {
      forall x, y | x in a.nodes && y in b.nodes
        ensures PlainComparison(w, cmp, VStr(Text(w, x)), VStr(Text(w, y))) ==
          (cmp == CmpEq <==> Text(w, x) == Text(w, y))
      {
      }
    } else if a.VNodes? && !b.VBool? {
      forall x | x in a.nodes
        ensures PlainComparison(w, cmp, Stand(w, x, b), b) ==
          if b.VNum? then CompareNumbers(cmp, b.n, w.toNumber(Text(w, x)))
          else cmp == CmpEq <==> ToText(w, b) == Text(w, x)
      {
      }
    } else if b.VNodes? && !a.VBool? {
      forall x | x in b.nodes
        ensures PlainComparison(w, cmp, a, Stand(w, x, a)) ==
          if a.VNum? then CompareNumbers(cmp, a.n, w.toNumber(Text(w, x)))
          else cmp == CmpEq <==> ToText(w, a) == Text(w, x)
      {
      }
    }
  }

  lemma LessAgrees(w: World, cmp: Comparison, a: Value, b: Value)
    requires IsRelational(cmp) && !(a.VBool? && b.VNodes?) && !(a.VNodes? && b.VBool?)
    ensures CompareLess(w, cmp, a, b) == StandardComparison(w, cmp, a, b)
  {
    if a.VNodes? && b.VNodes? {
      NodesLess(w, cmp, a, b);
    } else if a.VNodes? {
      forall x | x in a.nodes
        ensures PlainComparison(w, cmp, Stand(w, x, b), b) ==
          CompareNumbers(cmp, w.toNumber(Text(w, x)), ToNumber(w, b))
        ensures w.toNumber(Text(w, x)) in Numbers(w, a) && ToNumber(w, b) in Numbers(w, b)
      {
      }
    } else if b.VNodes? {
      forall y | y in b.nodes
        ensures PlainComparison(w, cmp, a, Stand(w, y, a)) ==
          CompareNumbers(cmp, ToNumber(w, a), w.toNumber(Text(w, y)))
        ensures w.toNumber(Text(w, y)) in Numbers(w, b) && ToNumber(w, a) in Numbers(w, a)
      {
      }
    } else {
      assert ToNumber(w, a) in Numbers(w, a) && ToNumber(w, b) in Numbers(w, b);
    }
  }

  lemma NodesLess(w: World, cmp: Comparison, a: Value, b: Value)
    requires IsRelational(cmp) && a.VNodes? && b.VNodes?
    ensures CompareLess(w, cmp, a, b) == StandardComparison(w, cmp, a, b)
  {
    forall x, y | x in a.nodes && y in b.nodes
      ensures PlainComparison(w, cmp, VStr(Text(w, x)), VStr(Text(w, y))) ==
        CompareNumbers(cmp, w.toNumber(Text(w, x)), w.toNumber(Text(w, y)))
      ensures w.toNumber(Text(w, x)) in Numbers(w, a) && w.toNumber(Text(w, y)) in Numbers(w, b)
    {
    }
  }

  /** The operand types for which the evaluator's comparison is that of section 3.4, whatever the values. */
  ghost predicate AlwaysAgrees(cmp: Comparison, left: Type, right: Type) {
    forall w: World, a: Value, b: Value :: HasType(a, left) && HasType(b, right) ==>
      Comparable(w, cmp, a, b) == StandardComparison(w, cmp, a, b)
  }

  /** true() > //none */
  function TrueAboveNone(): Expr {
    Compare(CmpGreater, Call(FTrue, NoExprs), Step(Some(AllNodes()), Child, TestName("none"), NoPredicates))
  }

  function AllNodes(): Expr {
    Step(Some(StepRoot), DescendantOrSelf, TestNode, NoPredicates)
  }

  ghost predicate NoElement(t: Tree, name: string) {
    forall i :: 0 <= i < t.Count() && t.data[i].kind == KElement ==> t.data[i].name != name
  }

  /** In a document without an element of that name, the query is true in section 3.4, and false here. */
  lemma EmptySetDiffers(w: World, c: Context)
    requires w.t.Valid() && NoElement(w.t, "none")
    ensures
      var e := TrueAboveNone();
      && WellFormed(e) && !ToBool(w, Meaning(w, e, c))
      && StandardComparison(w, e.cmp, Meaning(w, e.left, c), Meaning(w, e.right, c))
  {
    var e := TrueAboveNone();
    EmptyRight(w, c);
    QueryIsFormed();
    hide Meaning, WellFormed;
    NeverAboveEmpty(w);
    CompareMeans(w, e, c);
  }

  lemma NeverAboveEmpty(w: World)
    ensures !Comparable(w, CmpGreater, VBool(true), VNodes({}))
    ensures StandardComparison(w, CmpGreater, VBool(true), VNodes({}))
  {
  }

  lemma CompareMeans(w: World, e: Expr, c: Context)
    requires w.t.Valid() && e.Compare?
    ensures Meaning(w, e, c) == VBool(Comparable(w, e.cmp, Meaning(w, e.left, c), Meaning(w, e.right, c)))
  {
    hide Comparable, Tree.Valid;
  }

  lemma QueryIsFormed()
    ensures WellFormed(TrueAboveNone())
  {
    var e := TrueAboveNone();
    assert PredicatesWellFormed(NoPredicates) && WellFormed(AllNodes()) && AreWellFormed(NoExprs);
    assert WellFormed(e.left) && WellFormed(e.right);
  }

  lemma EmptyRight(w: World, c: Context)
    requires w.t.Valid() && NoElement(w.t, "none")
    ensures Meaning(w, TrueAboveNone().left, c) == VBool(true) && Meaning(w, TrueAboveNone().right, c) == VNodes({})
  {
    hide StepUnion, Ordered, Tree.Valid, NoElement;
    NoneFound(w, Ordered(ToNodes(Meaning(w, AllNodes(), c))));
  }

  lemma NoneFound(w: World, start: seq<Item>)
    requires w.t.Valid() && NoElement(w.t, "none")
    ensures StepUnion(w, Child, TestName("none"), NoPredicates, start) == {}
  {
    hide StepUnion, StepList, Tree.Nested;
    forall y
      ensures y !in StepUnion(w, Child, TestName("none"), NoPredicates, start)
    {
      StepUnionMember(w, Child, TestName("none"), NoPredicates, start, y);
      forall x
        ensures y !in StepList(w.t, Child, TestName("none"), x)
      {
        StepListExact(w.t, Child, TestName("none"), x);
      }
    }
  }

  /** A world in which no text is a number. */
  function Wordy(w: World): World {
    w.(toNumber := (s: string) => NaN)
  }

  lemma NeverComparable(w: World, cmp: Comparison, v: Value, nodes: set<Item>)
    requires IsRelational(cmp)
    ensures !Comparable(Wordy(w), cmp, v, VNodes(nodes)) && !Comparable(Wordy(w), cmp, VNodes(nodes), v)
  {
    assert forall x :: x in Numbers(Wordy(w), VNodes(nodes)) ==> x == NaN;
    assert forall x: Number :: !CompareNumbers(cmp, NaN, x) && !CompareNumbers(cmp, x, NaN);
  }

  lemma MixedDiffers(w: World, cmp: Comparison, left: Type, right: Type)
    requires IsRelational(cmp) && IsMixed(left, right)
    ensures !AlwaysAgrees(cmp, left, right)
  {
    var v := Wordy(w);
    var some, none := VNodes({Item(0, -1)}), VNodes({});
    var up := cmp == CmpGreater || cmp == CmpGreaterEq;
    var nodes := if (left == TBool) == up then none else some;
    var b := VBool((left == TBool) == up);
    NeverComparable(w, cmp, b, nodes.nodes);
    if left == TBool {
      assert Comparable(v, cmp, b, nodes) != StandardComparison(v, cmp, b, nodes);
    } else {
      assert Comparable(v, cmp, nodes, b) != StandardComparison(v, cmp, nodes, b);
    }
  }

  /**
   The evaluator's comparisons are those of section 3.4 exactly when no relational operator has a boolean and a node
   set as its operands.
   */
  lemma ComparisonsAgree(w: World, cmp: Comparison, left: Type, right: Type)
    ensures AlwaysAgrees(cmp, left, right) <==> !(IsRelational(cmp) && IsMixed(left, right))
  {
    if IsRelational(cmp) && IsMixed(left, right) {
      MixedDiffers(w, cmp, left, right);
    } else {
      forall w: World, a: Value, b: Value | HasType(a, left) && HasType(b, right)
        ensures Comparable(w, cmp, a, b) == StandardComparison(w, cmp, a, b)
      {
        if IsRelational(cmp) {
          LessAgrees(w, cmp, a, b);
        } else {
          EqualAgrees(w, cmp, a, b);
        }
      }
    }
  }

  /** Other comparisons mean what section 3.4 says, at every place of an expression. */
  lemma MeaningIsStandard(w: World, e: Expr, c: Context)
    requires w.t.Valid() && e.Compare? && !(IsRelational(e.cmp) && IsMixed(TypeOf(e.left), TypeOf(e.right)))
    ensures Meaning(w, e, c) == VBool(StandardComparison(w, e.cmp, Meaning(w, e.left, c), Meaning(w, e.right, c)))
  {
    TypeSound(w, e.left, c);
    TypeSound(w, e.right, c);
    ComparisonsAgree(w, e.cmp, TypeOf(e.left), TypeOf(e.right));
    hide StandardComparison, Comparable;
  }
}
