/**
 Which expressions the evaluator accepts, and what the optimizer's classification
 of a predicate promises.
 */
module XPathFacts {
  import opened Common
  import opened XmlTree
  import opened XPathLibrary
  import opened XPathModel
  import opened XPathLists

  /** is_posinv_expr. */
  predicate IsPosInv(e: Expr) {
    match e
    case Position => false
    case Last => false
    case StringConstant(_) => true
    case NumberConstant(_) => true
    case Variable(_, _) => true
    case Step(_, _, _, _) => true
    case StepRoot => true
    case Filter(_, _, _) => true
    case Or(l, r) => IsPosInv(l) && IsPosInv(r)
    case And(l, r) => IsPosInv(l) && IsPosInv(r)
    case Compare(_, l, r) => IsPosInv(l) && IsPosInv(r)
    case Arith(_, l, r) => IsPosInv(l) && IsPosInv(r)
    case Union(l, r) => IsPosInv(l) && IsPosInv(r)
    case Negate(a) => IsPosInv(a)
    case CountOf(a) => IsPosInv(a)
    case SumOf(a) => IsPosInv(a)
    case Id(a) => IsPosInv(a)
    case NameOf(_, a) => IsPosInv(a)
    case Call(_, args) => ArePosInv(args)
    case Translate(a, from, to) => IsPosInv(a) && IsPosInv(from) && IsPosInv(to)
    case OptTranslateTable(a, _) => IsPosInv(a)
    case OptCompareAttribute(_, r) => IsPosInv(r)
  }

  predicate ArePosInv(args: Exprs) {
    match args
    case NoExprs => true
    case MoreExprs(e, rest) => IsPosInv(e) && ArePosInv(rest)
  }

  /** A classification is one that the optimizer could have made. */
  predicate ClassFits(cls: PredicateClass, p: Expr) {
    match cls
    case ClassDefault => true
    case ClassConstantOne => p == NumberConstant(Finite(1.0))
    case ClassConstant => TypeOf(p) == TNum && (p.NumberConstant? || p.Variable? || p.Last?)
    case ClassPosInv => TypeOf(p) != TNum && IsPosInv(p)
  }

  /** A string constant or a string variable. */
  predicate IsConstantText(e: Expr) {
    e.StringConstant? || (e.Variable? && e.ty == TStr)
  }

  /** What the parser guarantees of types, and the optimizer of its own nodes. */
  predicate WellFormed(e: Expr) {
    match e
    case Or(l, r) => WellFormed(l) && WellFormed(r)
    case And(l, r) => WellFormed(l) && WellFormed(r)
    case Compare(_, l, r) => WellFormed(l) && WellFormed(r)
    case Arith(_, l, r) => WellFormed(l) && WellFormed(r)
    case Negate(a) => WellFormed(a)
    case Union(l, r) => WellFormed(l) && WellFormed(r) && TypeOf(l) == TypeOf(r) == TNodes
    case Filter(b, p, cls) => WellFormed(b) && TypeOf(b) == TNodes && WellFormed(p) && ClassFits(cls, p)
    case CountOf(a) => WellFormed(a) && TypeOf(a) == TNodes
    case SumOf(a) => WellFormed(a) && TypeOf(a) == TNodes
    case Id(a) => WellFormed(a)
    case NameOf(_, a) => WellFormed(a) && TypeOf(a) == TNodes
    case Call(_, args) => AreWellFormed(args)
    case Translate(a, from, to) => WellFormed(a) && WellFormed(from) && WellFormed(to)
    case Step(b, _, _, ps) =>
      (b.None? || (WellFormed(b.value) && TypeOf(b.value) == TNodes)) && PredicatesWellFormed(ps)
    case OptTranslateTable(a, table) => WellFormed(a) && |table| == 128
    case OptCompareAttribute(_, r) => IsConstantText(r) && WellFormed(r)
    case StringConstant(s) => NulFree(s)
    case _ => true
  }

  predicate AreWellFormed(args: Exprs) {
    match args
    case NoExprs => true
    case MoreExprs(e, rest) => WellFormed(e) && AreWellFormed(rest)
  }

  predicate PredicatesWellFormed(ps: Predicates) {
    match ps
    case NoPredicates => true
    case MorePredicates(p, cls, rest) => WellFormed(p) && ClassFits(cls, p) && PredicatesWellFormed(rest)
  }

  /** The meaning of an expression has the expression's type. */
  lemma TypeSound(w: World, e: Expr, c: Context)
    requires w.t.Valid()
    ensures
      match TypeOf(e)
      case TBool => Meaning(w, e, c).VBool?
      case TNum => Meaning(w, e, c).VNum?
      case TStr => Meaning(w, e, c).VStr?
      case TNodes => Meaning(w, e, c).VNodes?
  {
  }

  /**
   A position-invariant expression has the same meaning at every position of a node list.  A node set never depends on
   the position, whatever its predicates say: they have positions of their own.
   */
  lemma {:induction false} PositionFree(w: World, e: Expr, c: Context, d: Context)
    requires w.t.Valid() && WellFormed(e) && c.x == d.x && (IsPosInv(e) || TypeOf(e) == TNodes)
    ensures Meaning(w, e, c) == Meaning(w, e, d)
    decreases e, 1
  {
    hide Meaning, WellFormed, IsPosInv, Tree.Valid;
    if e.Or? || e.And? || e.Compare? || e.Arith? || e.Union? {
      OperandsPositionFree(w, e, c, d);
    } else if e.Negate? || e.CountOf? || e.SumOf? || e.Filter? || e.Step? {
      PartPositionFree(w, e, c, d);
    } else if e.NameOf? || e.Call? || e.Translate? || e.OptTranslateTable? || e.OptCompareAttribute? {
      TextPositionFree(w, e, c, d);
    } else {
      LeafPositionFree(w, e, c, d);
    }
  }

  lemma LeafPositionFree(w: World, e: Expr, c: Context, d: Context)
    requires w.t.Valid() && WellFormed(e) && c.x == d.x && (IsPosInv(e) || TypeOf(e) == TNodes)
    requires !e.Or? && !e.And? && !e.Compare? && !e.Arith? && !e.Union?
    requires !e.Negate? && !e.CountOf? && !e.SumOf? && !e.Filter? && !e.Step?
    requires !e.NameOf? && !e.Call? && !e.Translate? && !e.OptTranslateTable? && !e.OptCompareAttribute?
    ensures Meaning(w, e, c) == Meaning(w, e, d)
  {
  }

  lemma {:induction false} PartPositionFree(w: World, e: Expr, c: Context, d: Context)
    requires w.t.Valid() && WellFormed(e) && c.x == d.x && (IsPosInv(e) || TypeOf(e) == TNodes)
    requires e.Negate? || e.CountOf? || e.SumOf? || e.Filter? || e.Step?
    ensures Meaning(w, e, c) == Meaning(w, e, d)
    decreases e, 0
  {
    hide Comparable, Kept, StepUnion, Ordered, SetSum, Tree.Valid;
    match e
    case Negate(a) => PositionFree(w, a, c, d);
    case CountOf(a) => PositionFree(w, a, c, d);
    case SumOf(a) => PositionFree(w, a, c, d);
    case Filter(b, _, _) => PositionFree(w, b, c, d);
    case Step(b, _, _, _) => if b.Some? { PositionFree(w, b.value, c, d); }
  }

  lemma {:induction false} TextPositionFree(w: World, e: Expr, c: Context, d: Context)
    requires w.t.Valid() && WellFormed(e) && c.x == d.x && IsPosInv(e)
    requires e.NameOf? || e.Call? || e.Translate? || e.OptTranslateTable? || e.OptCompareAttribute?
    ensures Meaning(w, e, c) == Meaning(w, e, d)
    decreases e, 0, 1
  {
    hide CallBool, CallNum, CallStr, NameOfItem, First, Tree.Valid;
    match e
    case NameOf(_, a) => PositionFree(w, a, c, d);
    case Call(f, args) => ArgumentsPositionFree(w, f, 0, args, c, d);
    case Translate(_, _, _) => TranslatePositionFree(w, e, c, d);
    case OptTranslateTable(a, _) => PositionFree(w, a, c, d);
    case OptCompareAttribute(_, r) => PositionFree(w, r, c, d);
  }

  lemma {:induction false} TranslatePositionFree(w: World, e: Expr, c: Context, d: Context)
    requires w.t.Valid() && WellFormed(e) && c.x == d.x && IsPosInv(e) && e.Translate?
    ensures Meaning(w, e, c) == Meaning(w, e, d)
    decreases e, 0, 0
  {
    hide First, Tree.Valid;
    match e
    case Translate(a, from, to) =>
      PositionFree(w, a, c, d);
      PositionFree(w, from, c, d);
      PositionFree(w, to, c, d);
  }

  lemma {:induction false} OperandsPositionFree(w: World, e: Expr, c: Context, d: Context)
    requires w.t.Valid() && WellFormed(e) && c.x == d.x && (IsPosInv(e) || TypeOf(e) == TNodes)
    requires e.Or? || e.And? || e.Compare? || e.Arith? || e.Union?
    ensures Meaning(w, e, c) == Meaning(w, e, d)
    decreases e, 0
  {
    hide Comparable, Tree.Valid;
    PositionFree(w, e.left, c, d);
    PositionFree(w, e.right, c, d);
  }

  lemma {:induction false} ArgumentsPositionFree(w: World, f: Function, i: nat, args: Exprs, c: Context, d: Context)
    requires w.t.Valid() && AreWellFormed(args) && c.x == d.x && ArePosInv(args)
    ensures Arguments(w, f, i, args, c) == Arguments(w, f, i, args, d)
    decreases args, 1
  {
    if args.MoreExprs? {
      PositionFree(w, args.head, c, d);
      ArgumentsPositionFree(w, f, i + 1, args.tail, c, d);
    }
  }

  /** A position-invariant predicate keeps the same nodes whatever the order of the list. */
  lemma {:induction false} KeptPosInv(w: World, p: Expr, list: seq<Item>, k: nat)
    requires w.t.Valid() && WellFormed(p) && ClassFits(ClassPosInv, p) && k <= |list|
    ensures forall x :: x in Kept(w, p, list, k) <==> x in list[..k] && Holds(w, p, Context(x, 1, 1))
  {
    hide Holds, Tree.Valid;
    if k != 0 {
      KeptPosInv(w, p, list, k - 1);
      HoldsFree(w, p, Context(list[k - 1], k, |list|), Context(list[k - 1], 1, 1));
      assert list[..k] == list[..k - 1] + [list[k - 1]];
    }
  }

  lemma HoldsFree(w: World, p: Expr, c: Context, d: Context)
    requires w.t.Valid() && WellFormed(p) && ClassFits(ClassPosInv, p) && c.x == d.x
    ensures Holds(w, p, c) == Holds(w, p, d)
  {
    PositionFree(w, p, c, d);
    hide Meaning;
  }

  /** The position that a constant predicate selects in a list, counted from 1; 0 when there is none. */
  function ConstantPick(n: Number, size: nat): (k: nat)
    ensures k <= size && (k > 0 ==> NumberEq(n, Natural(k)))
    ensures forall j: nat :: 1 <= j <= size && NumberEq(n, Natural(j)) ==> k == j
  {
    assert forall j: nat {:trigger Natural(j)} :: (j as real).Floor == j;
    if n.Finite? && n.r >= 1.0 && n.r <= size as real && n.r == n.r.Floor as real then n.r.Floor else 0
  }

  /** What a constant predicate evaluates to depends on the size of the list only. */
  function ConstantValue(w: World, p: Expr, size: nat): Number {
    match p
    case NumberConstant(n) => n
    case Variable(name, _) => w.numVar(name)
    case _ => Natural(size)
  }

  lemma {:induction false} KeptConstant(w: World, p: Expr, list: seq<Item>, k: nat)
    requires w.t.Valid() && ClassFits(ClassConstant, p) && k <= |list|
    ensures
      var pick := ConstantPick(ConstantValue(w, p, |list|), |list|);
      Kept(w, p, list, k) == if 1 <= pick <= k then [list[pick - 1]] else []
  {
    hide Holds, ConstantValue, NumberEq, Natural, ClassFits, Tree.Valid;
    if k != 0 {
      KeptConstant(w, p, list, k - 1);
      ConstantHolds(w, p, Context(list[k - 1], k, |list|));
    }
  }

  lemma ConstantHolds(w: World, p: Expr, c: Context)
    requires w.t.Valid() && ClassFits(ClassConstant, p)
    ensures Holds(w, p, c) <==> NumberEq(ConstantValue(w, p, c.size), Natural(c.pos))
  {
    assert Meaning(w, p, c) == VNum(ConstantValue(w, p, c.size));
  }
}
