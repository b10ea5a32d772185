/**
 The evaluator of XPath expressions: it finds node sets as lists, in whatever
 order its steps produce, and stops early when the caller needs only the first
 node or the emptiness of a set.
 */
module XPathEval {
  import opened Common
  import opened XmlTree
  import opened XPathLibrary
  import opened XPathModel
  import opened XPathLists
  import opened XPathFacts
  import XPathFunctions
  import XPathSteps
  import XPathNodeSets
  import Traversal
  import HashSet

  /** The linked document, the node-set variables as lists, and the addresses of nodes. */
  datatype Runtime = Runtime(h: Traversal.Heap, vars: string -> RawSet, addr: Item -> nat, hash: nat -> nat)

  /** No element has two attributes of one name (section 3.1 of XML 1.0), namespace declarations aside. */
  ghost predicate DistinctAttributes(t: Tree) {
    forall i, j, k :: 0 <= i < t.Count() && 0 <= j < k < |t.data[i].attributes| ==>
      IsXPathAttribute(t.data[i].attributes[j].name) ==>
      t.data[i].attributes[j].name != t.data[i].attributes[k].name
  }

  ghost predicate Ready(w: World, rt: Runtime) {
    && Traversal.Linked(w.t, rt.h) && DistinctAttributes(w.t)
    && (forall name :: Answers(rt.vars(name), EvalAll, w.nodesVar(name)))
    && (forall x :: rt.addr(x) != 0)
    && (forall x, y :: rt.addr(x) == rt.addr(y) ==> x == y)
  }

  lemma AddressesOk(w: World, rt: Runtime, list: seq<Item>)
    requires Ready(w, rt)
    ensures HashSet.Addresses(rt.addr, list)
  {
  }

  /** apply_predicate_boolean. */
  method ApplyPredicateBoolean(w: World, rt: Runtime, p: Expr, list: seq<Item>, once: bool) returns (r: seq<Item>)
    requires Ready(w, rt) && WellFormed(p) && TypeOf(p) != TNum
    ensures r == Taken(Kept(w, p, list, |list|), once)
    decreases p, 10
  {
    hide Ready, WellFormed, Meaning, Tree.Valid;
    ReadyLinked(w, rt);
    r := [];
    var k := 0;
    while k < |list|
      invariant k <= |list| && r == Kept(w, p, list, k) && (once ==> r == [])
    {
      var b := EvalBoolean(w, rt, p, Context(list[k], k + 1, |list|));
      k := k + 1;
      if b {
        r := r + [list[k - 1]];
        if once {
          KeptPrefix(w, p, list, k, |list|);
          return;
        }
      }
    }
  }

  lemma {:induction false} KeptPrefix(w: World, p: Expr, list: seq<Item>, j: nat, k: nat)
    requires w.t.Valid() && j <= k <= |list|
    ensures Kept(w, p, list, j) <= Kept(w, p, list, k)
    decreases k
  {
    if j < k {
      KeptPrefix(w, p, list, j, k - 1);
    }
  }

  /** apply_predicate_number. */
  method ApplyPredicateNumber(w: World, rt: Runtime, p: Expr, list: seq<Item>, once: bool) returns (r: seq<Item>)
    requires Ready(w, rt) && WellFormed(p) && TypeOf(p) == TNum
    ensures r == Taken(Kept(w, p, list, |list|), once)
    decreases p, 10
  {
    hide Ready, WellFormed, Meaning, Tree.Valid;
    ReadyLinked(w, rt);
    r := [];
    var k := 0;
    while k < |list|
      invariant k <= |list| && r == Kept(w, p, list, k) && (once ==> r == [])
    {
      var n := EvalNumber(w, rt, p, Context(list[k], k + 1, |list|));
      k := k + 1;
      if NumberEq(n, Natural(k)) {
        r := r + [list[k - 1]];
        if once {
          KeptPrefix(w, p, list, k, |list|);
          return;
        }
      }
    }
  }

  /** apply_predicate_number_const: the predicate is evaluated once, without a context node. */
  method ApplyPredicateNumberConst(w: World, p: Expr, list: seq<Item>) returns (r: seq<Item>)
    requires w.t.Valid() && ClassFits(ClassConstant, p)
    ensures r == Kept(w, p, list, |list|) && |r| <= 1
  {
    KeptConstant(w, p, list, |list|);
    var er := ConstantValue(w, p, |list|);
    if er.Finite? && er.r >= 1.0 && er.r <= |list| as real {
      var eri := er.r.Floor;
      if er.r == eri as real {
        return [list[eri - 1]];
      }
    }
    r := [];
  }

  /** apply_predicate. */
  method ApplyPredicate(w: World, rt: Runtime, p: Expr, cls: PredicateClass, list: seq<Item>, once: bool)
    returns (r: seq<Item>)
    requires Ready(w, rt) && WellFormed(p) && ClassFits(cls, p)
    ensures r == Taken(Kept(w, p, list, |list|), once)
    decreases p, 11
  {
    hide Ready, WellFormed, Meaning, Kept, Tree.Valid;
    ReadyLinked(w, rt);
    if |list| == 0 {
      KeptOfNone(w, p);
      return [];
    }
    if cls == ClassConstant || cls == ClassConstantOne {
      r := ApplyPredicateNumberConst(w, p, list);
    } else if TypeOf(p) == TNum {
      r := ApplyPredicateNumber(w, rt, p, list, once);
    } else {
      r := ApplyPredicateBoolean(w, rt, p, list, once);
    }
  }

  lemma KeptOfNone(w: World, p: Expr)
    requires w.t.Valid()
    ensures Kept(w, p, [], 0) == []
  {
  }

  lemma ReadyLinked(w: World, rt: Runtime)
    requires Ready(w, rt)
    ensures Traversal.Linked(w.t, rt.h) && w.t.Valid()
  {
  }

  /** apply_predicates: only the last predicate may stop early. */
  method ApplyPredicates(w: World, rt: Runtime, ps: Predicates, list: seq<Item>, lastOnce: bool) returns (r: seq<Item>)
    requires Ready(w, rt) && PredicatesWellFormed(ps) && ps.MorePredicates?
    ensures r == Taken(Surviving(w, ps, list), lastOnce)
    decreases ps, 12
  {
    hide Ready, WellFormed, Meaning, Kept, ClassFits, Tree.Valid;
    ReadyLinked(w, rt);
    r := ApplyPredicate(w, rt, ps.first, ps.cls', list, ps.rest.NoPredicates? && lastOnce);
    if ps.rest.MorePredicates? {
      r := ApplyPredicates(w, rt, ps.rest, r, lastOnce);
    }
  }

  /** step_do's decision to take only the first node of the axis. */
  predicate StepOnce(axis: Axis, test: NodeTest, ps: Predicates, mode: Mode) {
    || (axis == AttributeAxis && test.TestName?)
    || (ps.NoPredicates? && EvalOnce(AxisOrder(axis), mode))
    || (ps.MorePredicates? && ps.rest.NoPredicates? && ps.cls' == ClassConstantOne)
  }

  function AxisOrder(axis: Axis): Order {
    if IsReverse(axis) then SortedDown else SortedUp
  }

  lemma TwoDiffer(list: seq<Item>)
    ensures |list| > 1 ==> list[0] in list && list[1] in list
    ensures |list| > 1 && Ascending(list) ==> Before(list[0], list[1])
    ensures |list| > 1 && Distinct(list) ==> list[0] != list[1]
  {
  }

  /** The attribute axis has at most one node of a given name. */
  lemma OneAttribute(t: Tree, test: NodeTest, x: Item)
    requires t.Valid() && DistinctAttributes(t) && test.TestName?
    ensures |StepList(t, AttributeAxis, test, x)| <= 1
  {
    StepListExact(t, AttributeAxis, test, x);
    TwoDiffer(StepList(t, AttributeAxis, test, x));
  }

  /** Stopping at the first attribute of a name is right for every name and node exactly if no name occurs twice. */
  lemma StopsAtOnlyAttribute(t: Tree)
    requires t.Valid()
    ensures
      DistinctAttributes(t) <==>
      forall name, x :: Taken(StepList(t, AttributeAxis, TestName(name), x), true) ==
                        StepList(t, AttributeAxis, TestName(name), x)
  {
    hide StepList, Tree.Nested;
    if DistinctAttributes(t) {
      forall name, x
        ensures Taken(StepList(t, AttributeAxis, TestName(name), x), true) ==
                StepList(t, AttributeAxis, TestName(name), x)
      {
        OneAttribute(t, TestName(name), x);
      }
    } else {
      var i, j, k :| 0 <= i < t.Count() && 0 <= j < k < |t.data[i].attributes| &&
        IsXPathAttribute(t.data[i].attributes[j].name) &&
        t.data[i].attributes[j].name == t.data[i].attributes[k].name;
      var list := StepList(t, AttributeAxis, TestName(t.data[i].attributes[j].name), NodeItem(i));
      StepListExact(t, AttributeAxis, TestName(t.data[i].attributes[j].name), NodeItem(i));
      assert Item(i, j) in list && Item(i, k) in list;
      assert |Taken(list, true)| <= 1;
    }
  }

  /** Looking only at the first node is right when a step has no more than one, or selects its first by [1]. */
  lemma FirstIsEnough(w: World, p: Expr, list: seq<Item>)
    requires w.t.Valid() && ClassFits(ClassConstantOne, p)
    ensures Kept(w, p, list, |list|) == Taken(list, true)
    ensures Kept(w, p, Taken(list, true), |Taken(list, true)|) == Taken(list, true)
  {
    KeptConstant(w, p, list, |list|);
    KeptConstant(w, p, Taken(list, true), |Taken(list, true)|);
    assert forall n: nat {:trigger Natural(n)} :: NumberEq(Finite(1.0), Natural(n)) ==> n == 1;
    assert NumberEq(Finite(1.0), Natural(1));
  }

  /** What one context node contributes to a step. */
  method StepFrom(w: World, rt: Runtime, axis: Axis, test: NodeTest, ps: Predicates, mode: Mode, order: Order, x: Item)
    returns (out: seq<Item>)
    requires Ready(w, rt) && PredicatesWellFormed(ps)
    requires order == AxisOrder(axis) || order == Unsorted || axis == Self
    ensures
      var all := Surviving(w, ps, StepList(w.t, axis, test, x));
      Covers(out, mode, Elements(all)) && (out == all || out == Taken(all, true))
    decreases ps, 13
  {
    ghost var list, all := StepList(w.t, axis, test, x), Surviving(w, ps, StepList(w.t, axis, test, x));
    var once := StepOnce(axis, test, ps, mode);
    StepContribution(w, rt, axis, test, ps, mode, order, x);
    out := XPathSteps.StepFill(w.t, rt.h, x, axis, test, once);
    if ps.MorePredicates? && |out| != 0 {
      out := ApplyPredicates(w, rt, ps, out, EvalOnce(order, mode));
    }
  }

  lemma {:induction false} SurvivingNone(w: World, ps: Predicates)
    requires w.t.Valid()
    ensures Surviving(w, ps, []) == []
    decreases ps
  {
    if ps.MorePredicates? {
      SurvivingNone(w, ps.rest);
    }
  }

  lemma StepContribution(w: World, rt: Runtime, axis: Axis, test: NodeTest, ps: Predicates, mode: Mode, order: Order,
                         x: Item)
    requires Ready(w, rt) && PredicatesWellFormed(ps)
    requires order == AxisOrder(axis) || order == Unsorted || axis == Self
    ensures
      var list, all := StepList(w.t, axis, test, x), Surviving(w, ps, StepList(w.t, axis, test, x));
      var filled := Taken(list, StepOnce(axis, test, ps, mode));
      var out := if ps.MorePredicates? && filled != []
                 then Taken(Surviving(w, ps, filled), EvalOnce(order, mode)) else filled;
      Covers(out, mode, Elements(all)) && (out == all || out == Taken(all, true))
  {
    hide StepList, Surviving, Covers, Selects, Tree.Nested, Descending, Ascending;
    var list, all := StepList(w.t, axis, test, x), Surviving(w, ps, StepList(w.t, axis, test, x));
    StepListExact(w.t, axis, test, x);
    SurvivingOrder(w, ps, list);
    SurvivingNone(w, ps);
    if axis == AttributeAxis && test.TestName? {
      OneAttribute(w.t, test, x);
    }
    if axis == Self {
      OneSelf(w.t, test, x);
    }
    if ps.MorePredicates? && ps.rest.NoPredicates? && ps.cls' == ClassConstantOne {
      OnlyFirst(w, ps, list);
      TakenTwice(list);
      TakenCovers(all, false, mode);
    } else if ps.MorePredicates? {
      ShortList(w, ps, list);
      assert Taken(list, StepOnce(axis, test, ps, mode)) == list;
      TakenCovers(all, EvalOnce(order, mode), mode);
    } else {
      assert all == list by {
        AllSurvive(w, ps, list);
      }
      TakenCovers(all, StepOnce(axis, test, ps, mode), mode);
    }
  }

  lemma AllSurvive(w: World, ps: Predicates, list: seq<Item>)
    requires w.t.Valid() && ps.NoPredicates?
    ensures Surviving(w, ps, list) == list
  {
  }

  lemma TakenTwice(list: seq<Item>)
    ensures forall b :: Taken(Taken(list, true), b) == Taken(list, true)
  {
    assert |list| > 0 ==> list[..1][..1] == list[..1];
  }

  /** The predicate [1] keeps the first item of a list, and that one stays when it is alone. */
  lemma OnlyFirst(w: World, ps: Predicates, list: seq<Item>)
    requires w.t.Valid() && PredicatesWellFormed(ps)
    requires ps.MorePredicates? && ps.rest.NoPredicates? && ps.cls' == ClassConstantOne
    ensures Surviving(w, ps, list) == Taken(list, true) && Surviving(w, ps, Taken(list, true)) == Taken(list, true)
  {
    FirstIsEnough(w, ps.first, list);
  }

  lemma OneSelf(t: Tree, test: NodeTest, x: Item)
    requires t.Valid()
    ensures |StepList(t, Self, test, x)| <= 1
  {
    StepListExact(t, Self, test, x);
    TwoDiffer(StepList(t, Self, test, x));
  }

  lemma ShortList(w: World, ps: Predicates, list: seq<Item>)
    requires w.t.Valid()
    ensures |list| <= 1 ==> |Surviving(w, ps, list)| <= 1
  {
    SurvivingOrder(w, ps, list);
    TwoDiffer(Surviving(w, ps, list));
  }

  /** Each node is on these axes of at most one node, so a step along them cannot find a node twice. */
  predicate IsLocal(axis: Axis) {
    axis == Child || axis == AttributeAxis || axis == Self
  }

  /** The state of step_do's loop after the context nodes in `done`. */
  ghost predicate StepState(w: World, axis: Axis, test: NodeTest, ps: Predicates, mode: Mode, ns: RawSet, from: Order,
                            done: seq<Item>)
    requires w.t.Valid()
  {
    && Covers(ns.items, mode, StepUnion(w, axis, test, ps, done))
    && InOrder(ns.order, ns.items)
    && (axis == Self ==> ns.order == from)
    && (axis != Self ==> ns.order == AxisOrder(axis) || ns.order == Unsorted)
    && (IsLocal(axis) || ns.order != Unsorted ==> Distinct(ns.items))
  }

  lemma StepStateStart(w: World, axis: Axis, test: NodeTest, ps: Predicates, mode: Mode, from: Order)
    requires w.t.Valid()
    ensures StepState(w, axis, test, ps, mode, RawSet(if axis == Self then from else AxisOrder(axis), []), from, [])
  {
    hide StepList, Surviving, Tree.Valid;
  }

  lemma UnionGrows(w: World, axis: Axis, test: NodeTest, ps: Predicates, done: seq<Item>, x: Item)
    requires w.t.Valid()
    ensures StepUnion(w, axis, test, ps, done + [x]) ==
            StepUnion(w, axis, test, ps, done) + Elements(Surviving(w, ps, StepList(w.t, axis, test, x)))
  {
    hide StepList, Surviving, Tree.Valid;
    assert (done + [x])[..|done|] == done;
  }

  lemma UnionSource(w: World, axis: Axis, test: NodeTest, ps: Predicates, done: seq<Item>, y: Item) returns (x: Item)
    requires w.t.Valid() && y in StepUnion(w, axis, test, ps, done)
    ensures x in done && Selects(w.t, axis, test, x, y)
  {
    StepUnionMember(w, axis, test, ps, done, y);
    x :| x in done && y in Surviving(w, ps, StepList(w.t, axis, test, x));
    SurvivingOrder(w, ps, StepList(w.t, axis, test, x));
    StepListExact(w.t, axis, test, x);
  }

  lemma UnionUnordered(w: World, axis: Axis, test: NodeTest, ps: Predicates, a: seq<Item>, b: seq<Item>)
    requires w.t.Valid() && forall x :: x in a <==> x in b
    ensures StepUnion(w, axis, test, ps, a) == StepUnion(w, axis, test, ps, b)
  {
    hide StepList, Surviving, Tree.Valid, StepUnion;
    forall y
      ensures y in StepUnion(w, axis, test, ps, a) <==> y in StepUnion(w, axis, test, ps, b)
    {
      StepUnionMember(w, axis, test, ps, a, y);
      StepUnionMember(w, axis, test, ps, b, y);
    }
  }

  /** The contribution of a context node is in the order of the axis. */
  lemma ContributionOrder(w: World, axis: Axis, test: NodeTest, ps: Predicates, x: Item, all: seq<Item>,
                          out: seq<Item>)
    requires w.t.Valid() && all == Surviving(w, ps, StepList(w.t, axis, test, x))
    requires out == all || out == Taken(all, true)
    ensures InOrder(AxisOrder(axis), out) && Distinct(out)
    ensures forall y :: y in out ==> Selects(w.t, axis, test, x, y)
  {
    StepListExact(w.t, axis, test, x);
    SurvivingOrder(w, ps, StepList(w.t, axis, test, x));
    AscendingNoRepeats(all);
  }

  lemma StepStateNext(w: World, axis: Axis, test: NodeTest, ps: Predicates, mode: Mode, ns: RawSet, from: RawSet,
                      j: nat, all: seq<Item>, out: seq<Item>)
    requires w.t.Valid() && j < |from.items| && InOrder(from.order, from.items) && Distinct(from.items)
    requires StepState(w, axis, test, ps, mode, ns, from.order, from.items[..j])
    requires all == Surviving(w, ps, StepList(w.t, axis, test, from.items[j]))
    requires Covers(out, mode, Elements(all)) && (out == all || out == Taken(all, true))
    ensures
      var order := if axis != Self && ns.items != [] then Unsorted else ns.order;
      StepState(w, axis, test, ps, mode, RawSet(order, ns.items + out), from.order, from.items[..j + 1])
  {
    hide StepList, Surviving, StepUnion, Tree.Valid, Elements, Covers, InOrder, Distinct, Selects, Taken;
    var done, x := from.items[..j], from.items[j];
    assert from.items[..j + 1] == done + [x];
    CoversNext(w, axis, test, ps, mode, ns.items, done, x, all, out);
    if axis == Self {
      SelfOrder(w, test, ps, mode, ns, from, j, all, out);
    } else {
      ContributionOrder(w, axis, test, ps, x, all, out);
      OtherOrder(w, axis, test, ps, mode, ns, from, j, out);
    }
  }

  lemma OtherOrder(w: World, axis: Axis, test: NodeTest, ps: Predicates, mode: Mode, ns: RawSet, from: RawSet, j: nat,
                   out: seq<Item>)
    requires w.t.Valid() && j < |from.items| && Distinct(from.items) && axis != Self
    requires ns.order == AxisOrder(axis) || ns.order == Unsorted
    requires Covers(ns.items, mode, StepUnion(w, axis, test, ps, from.items[..j]))
    requires InOrder(AxisOrder(axis), out) && Distinct(out) && (IsLocal(axis) ==> Distinct(ns.items))
    requires forall y :: y in out ==> Selects(w.t, axis, test, from.items[j], y)
    ensures
      var order := if ns.items != [] then Unsorted else ns.order;
      InOrder(order, ns.items + out) && (IsLocal(axis) || order != Unsorted ==> Distinct(ns.items + out))
  {
    hide StepList, Surviving, StepUnion, Tree.Valid, Elements, Covers, Distinct, Selects;
    if ns.items == [] {
      assert ns.items + out == out;
    } else if IsLocal(axis) {
      LocalNoRepeats(w, axis, test, ps, mode, ns, from, j, out);
    }
  }

  lemma CoversNext(w: World, axis: Axis, test: NodeTest, ps: Predicates, mode: Mode, list: seq<Item>, done: seq<Item>,
                   x: Item, all: seq<Item>, out: seq<Item>)
    requires w.t.Valid() && all == Surviving(w, ps, StepList(w.t, axis, test, x))
    requires Covers(list, mode, StepUnion(w, axis, test, ps, done)) && Covers(out, mode, Elements(all))
    ensures Covers(list + out, mode, StepUnion(w, axis, test, ps, done + [x]))
  {
    UnionGrows(w, axis, test, ps, done, x);
    CoversUnion(list, out, mode, StepUnion(w, axis, test, ps, done), Elements(all));
  }

  /** Along a local axis, different context nodes contribute different nodes. */
  lemma LocalNoRepeats(w: World, axis: Axis, test: NodeTest, ps: Predicates, mode: Mode, ns: RawSet, from: RawSet,
                       j: nat, out: seq<Item>)
    requires w.t.Valid() && j < |from.items| && Distinct(from.items) && IsLocal(axis)
    requires Covers(ns.items, mode, StepUnion(w, axis, test, ps, from.items[..j]))
    requires Distinct(ns.items) && Distinct(out)
    requires forall y :: y in out ==> Selects(w.t, axis, test, from.items[j], y)
    ensures Distinct(ns.items + out)
  {
    hide StepList, Surviving, StepUnion, Tree.Valid, Selects;
    forall y | y in ns.items
      ensures y !in out
    {
      var x' := UnionSource(w, axis, test, ps, from.items[..j], y);
      if y in out {
        LocalSource(w.t, axis, test, from.items[j], x', y);
      }
    }
    NoRepeatsUnion(ns.items, out);
  }

  lemma NoRepeatsUnion(a: seq<Item>, b: seq<Item>)
    requires Distinct(a) && Distinct(b) && forall y :: y in a ==> y !in b
    ensures Distinct(a + b)
  {
    forall i, j | 0 <= i < j < |a + b|
      ensures (a + b)[i] != (a + b)[j]
    {
      if i < |a| <= j {
        assert a[i] in a && b[j - |a|] in b;
      }
    }
  }

  lemma LocalSource(t: Tree, axis: Axis, test: NodeTest, x: Item, x': Item, y: Item)
    requires t.Valid() && IsLocal(axis) && Selects(t, axis, test, x, y) && Selects(t, axis, test, x', y)
    ensures x == x'
  {
  }

  lemma SelfOrder(w: World, test: NodeTest, ps: Predicates, mode: Mode, ns: RawSet, from: RawSet, j: nat,
                  all: seq<Item>, out: seq<Item>)
    requires w.t.Valid() && j < |from.items| && InOrder(from.order, from.items) && Distinct(from.items)
    requires InOrder(from.order, ns.items) && Distinct(ns.items)
    requires Covers(ns.items, mode, StepUnion(w, Self, test, ps, from.items[..j]))
    requires all == Surviving(w, ps, StepList(w.t, Self, test, from.items[j]))
    requires out == all || out == Taken(all, true)
    ensures InOrder(from.order, ns.items + out) && Distinct(ns.items + out)
  {
    OneSelf(w.t, test, from.items[j]);
    ShortList(w, ps, StepList(w.t, Self, test, from.items[j]));
    ContributionOrder(w, Self, test, ps, from.items[j], all, out);
    hide StepList, Surviving, StepUnion, Tree.Valid;
    if |out| == 1 {
      assert out[0] in out && out == [from.items[j]];
      forall y | y in ns.items
        ensures y in from.items[..j]
      {
        var x := UnionSource(w, Self, test, ps, from.items[..j], y);
      }
      AppendInOrder(from, j, ns.items);
    } else {
      assert ns.items + out == ns.items;
    }
  }

  lemma AppendInOrder(from: RawSet, j: nat, list: seq<Item>)
    requires j < |from.items| && InOrder(from.order, from.items) && Distinct(from.items)
    requires InOrder(from.order, list) && Distinct(list) && forall y :: y in list ==> y in from.items[..j]
    ensures InOrder(from.order, list + [from.items[j]]) && Distinct(list + [from.items[j]])
  {
    forall i | 0 <= i < |list|
      ensures exists k :: 0 <= k < j && list[i] == from.items[k]
    {
      assert list[i] in from.items[..j];
    }
  }

  lemma CoversAll(list: seq<Item>, mode: Mode, s: set<Item>)
    requires Covers(list, EvalAll, s)
    ensures Covers(list, mode, s)
  {
  }

  lemma CoversSame(list: seq<Item>, list': seq<Item>, mode: Mode, s: set<Item>)
    requires Covers(list, mode, s) && forall x :: x in list' <==> x in list
    ensures Covers(list', mode, s)
  {
    if list != [] {
      assert list[0] in list;
    }
  }

  lemma AllElements(list: seq<Item>, s: set<Item>)
    requires Covers(list, EvalAll, s)
    ensures Elements(list) == s
  {
  }

  lemma FirstCovered(list: seq<Item>, mode: Mode, s: set<Item>, x: Item)
    requires Covers(list, mode, s) && mode != EvalAny && IsFirst(x, Elements(list))
    ensures s != {} && x == First(s)
  {
    assert First(s) in Elements(list);
  }

  lemma {:induction false} CountCovered(list: seq<Item>, s: set<Item>)
    requires Covers(list, EvalAll, s) && Distinct(list)
    ensures |list| == |s|
    decreases list
  {
    if list == [] {
      assert s == {};
    } else {
      var front, x := list[..|list| - 1], list[|list| - 1];
      assert forall y :: y in list <==> y in front || y == x;
      assert x !in front;
      CountCovered(front, s - {x});
    }
  }

  lemma PlusLaws(a: Number, b: Number, c: Number)
    ensures Plus(a, b) == Plus(b, a) && Plus(Plus(a, b), c) == Plus(a, Plus(b, c)) && Plus(a, Finite(0.0)) == a
  {
  }

  lemma {:induction false} SumSplit(w: World, left: seq<Item>, right: seq<Item>)
    ensures ListSum(w, left + right) == Plus(ListSum(w, left), ListSum(w, right))
    decreases |right|
  {
    hide Plus;
    if right == [] {
      assert left + right == left;
      PlusLaws(ListSum(w, left), Finite(0.0), Finite(0.0));
    } else {
      var last := |right| - 1;
      SumSplit(w, left, right[..last]);
      assert (left + right)[..|left + right| - 1] == left + right[..last];
      PlusLaws(ListSum(w, left), ListSum(w, right[..last]), w.toNumber(Text(w, right[last])));
    }
  }

  lemma MultisetWithout(list: seq<Item>, k: nat)
    requires k < |list|
    ensures multiset(list[..k] + list[k + 1..]) == multiset(list) - multiset{list[k]}
  {
    assert list == list[..k] + [list[k]] + list[k + 1..];
    assert multiset(list) == multiset(list[..k]) + multiset{list[k]} + multiset(list[k + 1..]);
  }

  /** Two lists of the same nodes without a node of both. */
  lemma SameWithout(a: seq<Item>, b: seq<Item>) returns (k: nat)
    requires a != [] && multiset(a) == multiset(b)
    ensures k < |b| && b[k] == a[0] && multiset(a[1..]) == multiset(b[..k] + b[k + 1..])
  {
    assert a[0] in multiset(b);
    k :| 0 <= k < |b| && b[k] == a[0];
    MultisetWithout(b, k);
    assert a == [a[0]] + a[1..];
  }

  /** The sum of a list does not depend on the order of its nodes. */
  lemma {:induction false} SumAnyOrder(w: World, a: seq<Item>, b: seq<Item>)
    requires multiset(a) == multiset(b)
    ensures ListSum(w, a) == ListSum(w, b)
    decreases |a|
  {
    if a == [] {
      assert |multiset(b)| == 0;
    } else {
      hide ListSum, Plus;
      var k := SameWithout(a, b);
      assert a[..0] + a[1..] == a[1..];
      SumAnyOrder(w, a[1..], b[..k] + b[k + 1..]);
      SumAround(w, a, 0);
      SumAround(w, b, k);
    }
  }

  lemma SumAround(w: World, list: seq<Item>, k: nat)
    requires k < |list|
    ensures ListSum(w, list) == Plus(ListSum(w, [list[k]]), ListSum(w, list[..k] + list[k + 1..]))
  {
    hide ListSum, Plus;
    var left, x, right := list[..k], list[k], list[k + 1..];
    assert list == left + [x] + right;
    SumSplit(w, left + [x], right);
    SumSplit(w, left, [x]);
    SumSplit(w, left, right);
    var s, t, u := ListSum(w, left), ListSum(w, [x]), ListSum(w, right);
    PlusLaws(s, t, u);
    PlusLaws(t, s, u);
  }

  lemma {:induction false} MultisetOfList(list: seq<Item>, s: set<Item>)
    requires Elements(list) == s && Distinct(list)
    ensures multiset(list) == multiset(s)
    decreases |list|
  {
    if list == [] {
      assert s == {};
    } else {
      var front, x := list[..|list| - 1], list[|list| - 1];
      assert forall y :: y in list <==> y in front || y == x;
      assert x !in front;
      assert Elements(front) == s - {x};
      MultisetOfList(front, s - {x});
      assert list == front + [x];
      assert s == (s - {x}) + {x};
    }
  }

  /** A list without repeats adds up to the sum of its set, in whatever order it is. */
  lemma SumCovered(w: World, list: seq<Item>, s: set<Item>)
    requires Covers(list, EvalAll, s) && Distinct(list)
    ensures ListSum(w, list) == SetSum(w, s)
  {
    OrderedExact(s);
    AllElements(list, s);
    AllElements(Ordered(s), s);
    MultisetOfList(list, s);
    AscendingNoRepeats(Ordered(s));
    MultisetOfList(Ordered(s), s);
    SumAnyOrder(w, list, Ordered(s));
  }

  /** step_do. */
  method StepDo(w: World, rt: Runtime, e: Expr, c: Context, mode: Mode) returns (ns: RawSet)
    requires Ready(w, rt) && WellFormed(e) && e.Step?
    ensures Answers(ns, mode, ToNodes(Meaning(w, e, c)))
    decreases e, 0
  {
    hide Ready, Tree.Valid, Covers, InOrder, Distinct, StepState, StepList, Surviving, Answers;
    ReadyLinked(w, rt);
    var axis, test, ps := e.axis, e.test, e.predicates;
    var s: RawSet;
    if e.base'.Some? {
      s := EvalNodeSet(w, rt, e.base'.value, c, EvalAll);
      ns := RawSet(if axis == Self then s.order else AxisOrder(axis), []);
    } else {
      s := RawSet(SortedUp, [c.x]);
      ns := RawSet(AxisOrder(axis), []);
    }
    StepSource(w, e, c, s);
    StepStateStart(w, axis, test, ps, mode, s.order);
    var j := 0;
    while j < |s.items|
      invariant j <= |s.items|
      invariant StepState(w, axis, test, ps, mode, ns, s.order, s.items[..j])
    {
      StepStateNextAll(w, axis, test, ps, mode, ns, s, j);
      var order := if axis != Self && |ns.items| != 0 then Unsorted else ns.order;
      StepOrder(w, axis, test, ps, mode, ns, s.order, s.items[..j]);
      var out := StepFrom(w, rt, axis, test, ps, mode, order, s.items[j]);
      ns := RawSet(order, ns.items + out);
      j := j + 1;
    }
    assert s.items[..j] == s.items;
    if !IsLocal(axis) && ns.order == Unsorted {
      AddressesOk(w, rt, ns.items);
      var items := XPathNodeSets.RemoveDuplicates(ns.items, rt.addr, rt.hash);
      StepStateEnd(w, e, c, s, mode, ns, items);
      ns := RawSet(Unsorted, items);
    } else {
      StepStateEnd(w, e, c, s, mode, ns, ns.items);
    }
  }

  lemma StepSource(w: World, e: Expr, c: Context, s: RawSet)
    requires w.t.Valid() && e.Step?
    requires if e.base'.Some? then Answers(s, EvalAll, ToNodes(Meaning(w, e.base'.value, c)))
             else s == RawSet(SortedUp, [c.x])
    ensures InOrder(s.order, s.items) && Distinct(s.items)
    ensures ToNodes(Meaning(w, e, c)) == StepUnion(w, e.axis, e.test, e.predicates, s.items)
  {
    hide StepList, Surviving, Tree.Valid, StepUnion;
    if e.base'.Some? {
      var nodes := ToNodes(Meaning(w, e.base'.value, c));
      OrderedExact(nodes);
      UnionUnordered(w, e.axis, e.test, e.predicates, s.items, Ordered(nodes));
    }
  }

  lemma StepOrder(w: World, axis: Axis, test: NodeTest, ps: Predicates, mode: Mode, ns: RawSet, from: Order,
                  done: seq<Item>)
    requires w.t.Valid() && StepState(w, axis, test, ps, mode, ns, from, done)
    ensures axis == Self || ns.order == AxisOrder(axis) || ns.order == Unsorted
  {
  }

  lemma StepStateNextAll(w: World, axis: Axis, test: NodeTest, ps: Predicates, mode: Mode, ns: RawSet, from: RawSet,
                         j: nat)
    requires w.t.Valid() && j < |from.items| && InOrder(from.order, from.items) && Distinct(from.items)
    requires StepState(w, axis, test, ps, mode, ns, from.order, from.items[..j])
    ensures
      var all := Surviving(w, ps, StepList(w.t, axis, test, from.items[j]));
      var order := if axis != Self && ns.items != [] then Unsorted else ns.order;
      forall out :: Covers(out, mode, Elements(all)) && (out == all || out == Taken(all, true)) ==>
        StepState(w, axis, test, ps, mode, RawSet(order, ns.items + out), from.order, from.items[..j + 1])
  {
    var all := Surviving(w, ps, StepList(w.t, axis, test, from.items[j]));
    forall out | Covers(out, mode, Elements(all)) && (out == all || out == Taken(all, true))
      ensures
        var order := if axis != Self && ns.items != [] then Unsorted else ns.order;
        StepState(w, axis, test, ps, mode, RawSet(order, ns.items + out), from.order, from.items[..j + 1])
    {
      StepStateNext(w, axis, test, ps, mode, ns, from, j, all, out);
    }
  }

  lemma StepStateEnd(w: World, e: Expr, c: Context, s: RawSet, mode: Mode, ns: RawSet, items: seq<Item>)
    requires w.t.Valid() && e.Step?
    requires ToNodes(Meaning(w, e, c)) == StepUnion(w, e.axis, e.test, e.predicates, s.items)
    requires StepState(w, e.axis, e.test, e.predicates, mode, ns, s.order, s.items)
    requires if !IsLocal(e.axis) && ns.order == Unsorted
             then Distinct(items) && forall x :: x in items <==> x in ns.items
             else items == ns.items
    ensures Answers(RawSet(ns.order, items), mode, ToNodes(Meaning(w, e, c)))
  {
    CoversSame(ns.items, items, mode, ToNodes(Meaning(w, e, c)));
  }

  /** eval_node_set. */
  method EvalNodeSet(w: World, rt: Runtime, e: Expr, c: Context, mode: Mode) returns (ns: RawSet)
    requires Ready(w, rt) && WellFormed(e) && TypeOf(e) == TNodes
    ensures Answers(ns, mode, ToNodes(Meaning(w, e, c)))
    decreases e, 1
  {
    match e {
      case Union(l, r) =>
        var ls := EvalNodeSet(w, rt, l, c, mode);
        var rs := EvalNodeSet(w, rt, r, c, mode);
        CoversUnion(ls.items, rs.items, mode, ToNodes(Meaning(w, l, c)), ToNodes(Meaning(w, r, c)));
        AddressesOk(w, rt, ls.items + rs.items);
        var items := XPathNodeSets.RemoveDuplicates(ls.items + rs.items, rt.addr, rt.hash);
        CoversSame(ls.items + rs.items, items, mode, ToNodes(Meaning(w, e, c)));
        ns := RawSet(Unsorted, items);
      case Filter(b, p, cls) =>
        ns := EvalFilter(w, rt, e, c, mode);
      case Id(_) =>
        ns := RawSet(Unsorted, []);
      case Step(_, _, _, _) =>
        ns := StepDo(w, rt, e, c, mode);
      case StepRoot =>
        ns := RawSet(SortedUp, if InDoc(w.t, c.x) then [NodeItem(0)] else []);
        CoversAll(ns.items, mode, ToNodes(Meaning(w, e, c)));
      case Variable(name, _) =>
        ns := rt.vars(name);
        CoversAll(ns.items, mode, w.nodesVar(name));
    }
  }

  /** The part of eval_node_set that applies a predicate to a whole node set. */
  method EvalFilter(w: World, rt: Runtime, e: Expr, c: Context, mode: Mode) returns (ns: RawSet)
    requires Ready(w, rt) && WellFormed(e) && e.Filter?
    ensures Answers(ns, mode, ToNodes(Meaning(w, e, c)))
    decreases e, 0
  {
    hide Ready, Tree.Valid, Covers, InOrder, Distinct, Answers, Kept, Ascending;
    ReadyLinked(w, rt);
    var set' := EvalNodeSet(w, rt, e.base, c, if e.cls == ClassConstantOne then EvalFirst else EvalAll);
    ghost var found := set';
    AnswersParts(set', if e.cls == ClassConstantOne then EvalFirst else EvalAll, ToNodes(Meaning(w, e.base, c)));
    if e.cls != ClassPosInv {
      set' := XPathNodeSets.SortDo(set');
    }
    var once := EvalOnce(set'.order, mode);
    var items := ApplyPredicate(w, rt, e.filter, e.cls, set'.items, once);
    ns := RawSet(set'.order, items);
    FilterAnswers(w, e, c, mode, found, set', items);
  }

  lemma AnswersParts(ns: RawSet, mode: Mode, s: set<Item>)
    requires Answers(ns, mode, s)
    ensures InOrder(ns.order, ns.items) && Distinct(ns.items)
  {
  }

  lemma FilterAnswers(w: World, e: Expr, c: Context, mode: Mode, found: RawSet, sorted: RawSet, items: seq<Item>)
    requires w.t.Valid() && WellFormed(e) && e.Filter?
    requires Answers(found, if e.cls == ClassConstantOne then EvalFirst else EvalAll, ToNodes(Meaning(w, e.base, c)))
    requires if e.cls == ClassPosInv then sorted == found
             else sorted.order == SortedUp && Ascending(sorted.items) &&
                  forall x :: x in sorted.items <==> x in found.items
    requires items == Taken(Kept(w, e.filter, sorted.items, |sorted.items|), EvalOnce(sorted.order, mode))
    ensures Answers(RawSet(sorted.order, items), mode, ToNodes(Meaning(w, e, c)))
  {
    var s := ToNodes(Meaning(w, e.base, c));
    var all := Kept(w, e.filter, sorted.items, |sorted.items|);
    KeptOrder(w, e.filter, sorted.items, |sorted.items|);
    if e.cls != ClassPosInv {
      AscendingNoRepeats(sorted.items);
    }
    FilterElements(w, e, s, sorted.items);
    TakenCovers(all, EvalOnce(sorted.order, mode), mode);
  }

  /** A filter selects the same nodes from the list the evaluator has as from the set in document order. */
  lemma FilterElements(w: World, e: Expr, s: set<Item>, list: seq<Item>)
    requires w.t.Valid() && WellFormed(e) && e.Filter?
    requires Covers(list, if e.cls == ClassConstantOne then EvalFirst else EvalAll, s)
    requires e.cls == ClassPosInv || Ascending(list)
    ensures Elements(Kept(w, e.filter, list, |list|)) == Elements(Kept(w, e.filter, Ordered(s), |Ordered(s)|))
  {
    OrderedExact(s);
    hide Ordered, Ascending, Kept;
    var all := Ordered(s);
    if e.cls == ClassPosInv {
      FilterUnordered(w, e.filter, s, list, all);
    } else if e.cls == ClassConstantOne {
      FilterFirst(w, e.filter, s, list, all);
    } else {
      AllElements(list, s);
      AllElements(all, s);
      AscendingUnique(list, all);
    }
  }

  lemma FilterUnordered(w: World, p: Expr, s: set<Item>, list: seq<Item>, all: seq<Item>)
    requires w.t.Valid() && WellFormed(p) && ClassFits(ClassPosInv, p)
    requires Covers(list, EvalAll, s) && forall x :: x in all <==> x in s
    ensures Elements(Kept(w, p, list, |list|)) == Elements(Kept(w, p, all, |all|))
  {
    KeptPosInv(w, p, list, |list|);
    KeptPosInv(w, p, all, |all|);
    hide Kept, Holds;
    assert list[..|list|] == list && all[..|all|] == all;
  }

  lemma FilterFirst(w: World, p: Expr, s: set<Item>, list: seq<Item>, all: seq<Item>)
    requires w.t.Valid() && ClassFits(ClassConstantOne, p)
    requires Covers(list, EvalFirst, s) && Ascending(list)
    requires Ascending(all) && (forall x :: x in all <==> x in s) && (s != {} ==> all != [] && all[0] == First(s))
    ensures Elements(Kept(w, p, list, |list|)) == Elements(Kept(w, p, all, |all|))
  {
    hide Kept, Ascending, Tree.Valid;
    FirstIsEnough(w, p, list);
    FirstIsEnough(w, p, all);
    assert |list| > 0 ==> list[0] in list;
    assert |all| > 0 ==> all[0] in all;
    if s != {} {
      FirstOfAscending(list, s);
    }
  }

  lemma FirstOfAscending(list: seq<Item>, s: set<Item>)
    requires s != {} && Covers(list, EvalFirst, s) && Ascending(list)
    ensures list != [] && list[0] == First(s)
  {
    var k :| 0 <= k < |list| && list[k] == First(s);
    if k > 0 {
      assert Before(list[0], list[k]) && list[0] in list;
    }
  }

  lemma {:induction false} OrderedExact(s: set<Item>)
    ensures Ascending(Ordered(s)) && forall x :: x in Ordered(s) <==> x in s
    ensures s != {} ==> Ordered(s) != [] && Ordered(s)[0] == First(s)
    ensures Covers(Ordered(s), EvalAll, s)
    decreases s
  {
    if s != {} {
      var x, rest := First(s), Ordered(s - {First(s)});
      OrderedExact(s - {x});
      forall j | 0 <= j < |rest|
        ensures Before(x, rest[j])
      {
        assert rest[j] in rest;
      }
    }
  }

  lemma {:induction false} AscendingUnique(a: seq<Item>, b: seq<Item>)
    requires Ascending(a) && Ascending(b) && Elements(a) == Elements(b)
    ensures a == b
    decreases |a|
  {
    assert forall x :: x in a <==> x in Elements(a);
    assert forall x :: x in b <==> x in Elements(b);
    assert |a| > 0 ==> a[0] in a;
    assert |b| > 0 ==> b[0] in b;
    if a != [] {
      assert b[0] in a && a[0] in b;
      HeadIsLeast(a, b[0]);
      HeadIsLeast(b, a[0]);
      assert a[0] == b[0];
      TailElements(a);
      TailElements(b);
      AscendingUnique(a[1..], b[1..]);
    }
  }

  lemma HeadIsLeast(a: seq<Item>, x: Item)
    requires Ascending(a) && x in a
    ensures x == a[0] || Before(a[0], x)
  {
  }

  lemma TailElements(a: seq<Item>)
    requires Ascending(a) && a != []
    ensures Ascending(a[1..]) && Elements(a[1..]) == Elements(a) - {a[0]}
  {
    assert a == [a[0]] + a[1..];
    assert a[0] !in a[1..];
  }

  /** Two nested loops over node sets, stopping at the first pair that compares. */
  method AnyPair(w: World, h: Traversal.Heap, cmp: Comparison, numbers: bool, ls: seq<Item>, rs: seq<Item>)
    returns (b: bool)
    requires Traversal.Linked(w.t, h)
    ensures b <==> exists x, y :: x in ls && y in rs && PairCompares(w, cmp, numbers, x, y)
  {
    hide Traversal.Linked, ItemString;
    var i := 0;
    while i < |ls|
      invariant i <= |ls| && forall x, y :: x in ls[..i] && y in rs ==> !PairCompares(w, cmp, numbers, x, y)
    {
      var j := 0;
      while j < |rs|
        invariant j <= |rs| && forall y :: y in rs[..j] ==> !PairCompares(w, cmp, numbers, ls[i], y)
      {
        var l := XPathFunctions.StringValue(w.t, h, ls[i]);
        var r := XPathFunctions.StringValue(w.t, h, rs[j]);
        if if numbers then CompareNumbers(cmp, w.toNumber(l), w.toNumber(r)) else cmp == CmpEq <==> l == r {
          assert PairCompares(w, cmp, numbers, ls[i], rs[j]);
          return true;
        }
        j := j + 1;
      }
      i := i + 1;
    }
    b := false;
  }

  predicate PairCompares(w: World, cmp: Comparison, numbers: bool, x: Item, y: Item) {
    if numbers then CompareNumbers(cmp, w.toNumber(Text(w, x)), w.toNumber(Text(w, y)))
    else cmp == CmpEq <==> Text(w, x) == Text(w, y)
  }

  /** One loop over a node set against a number; `left` tells on which side the number stands. */
  method AnyNumber(w: World, h: Traversal.Heap, cmp: Comparison, n: Number, left: bool, rs: seq<Item>) returns (b: bool)
    requires Traversal.Linked(w.t, h)
    ensures b <==> exists y :: y in rs && NumberCompares(w, cmp, n, left, y)
  {
    hide Traversal.Linked, ItemString;
    var j := 0;
    while j < |rs|
      invariant j <= |rs| && forall y :: y in rs[..j] ==> !NumberCompares(w, cmp, n, left, y)
    {
      var s := XPathFunctions.StringValue(w.t, h, rs[j]);
      var m := w.toNumber(s);
      if if left then CompareNumbers(cmp, n, m) else CompareNumbers(cmp, m, n) {
        assert NumberCompares(w, cmp, n, left, rs[j]);
        return true;
      }
      j := j + 1;
    }
    b := false;
  }

  predicate NumberCompares(w: World, cmp: Comparison, n: Number, left: bool, y: Item) {
    var m := w.toNumber(Text(w, y));
    if left then CompareNumbers(cmp, n, m) else CompareNumbers(cmp, m, n)
  }

  /** One loop over a node set against a string. */
  method AnyString(w: World, h: Traversal.Heap, cmp: Comparison, s: string, rs: seq<Item>) returns (b: bool)
    requires Traversal.Linked(w.t, h)
    ensures b <==> exists y :: y in rs && (cmp == CmpEq <==> s == Text(w, y))
  {
    hide Traversal.Linked, ItemString;
    var j := 0;
    while j < |rs|
      invariant j <= |rs| && forall y :: y in rs[..j] ==> !(cmp == CmpEq <==> s == Text(w, y))
    {
      var r := XPathFunctions.StringValue(w.t, h, rs[j]);
      if cmp == CmpEq <==> s == r {
        assert cmp == CmpEq <==> s == Text(w, rs[j]);
        return true;
      }
      j := j + 1;
    }
    b := false;
  }

  /** compare_eq. */
  method CompareEq(w: World, rt: Runtime, e: Expr, c: Context) returns (b: bool)
    requires Ready(w, rt) && WellFormed(e) && e.Compare? && (e.cmp == CmpEq || e.cmp == CmpNe)
    ensures b == CompareEqual(w, e.cmp, Meaning(w, e.left, c), Meaning(w, e.right, c))
    decreases e, 0, 0
  {
    hide Ready, Meaning, Tree.Valid, IsPosInv;
    ReadyLinked(w, rt);
    var lhs, rhs, cmp := e.left, e.right, e.cmp;
    TypeSound(w, lhs, c);
    TypeSound(w, rhs, c);
    var lt, rt' := TypeOf(lhs), TypeOf(rhs);
    if lt != TNodes && rt' != TNodes {
      if lt == TBool || rt' == TBool {
        var x := EvalBoolean(w, rt, lhs, c);
        var y := EvalBoolean(w, rt, rhs, c);
        return cmp == CmpEq <==> x == y;
      } else if lt == TNum || rt' == TNum {
        var x := EvalNumber(w, rt, lhs, c);
        var y := EvalNumber(w, rt, rhs, c);
        return CompareNumbers(cmp, x, y);
      } else {
        var x := EvalString(w, rt, lhs, c);
        var y := EvalString(w, rt, rhs, c);
        return cmp == CmpEq <==> x == y;
      }
    } else if lt == TNodes && rt' == TNodes {
      var ls := EvalNodeSet(w, rt, lhs, c, EvalAll);
      var rs := EvalNodeSet(w, rt, rhs, c, EvalAll);
      b := AnyPair(w, rt.h, cmp, false, ls.items, rs.items);
    } else {
      if lt == TNodes {
        lhs, rhs, lt, rt' := rhs, lhs, rt', lt;
      }
      if lt == TBool {
        var x := EvalBoolean(w, rt, lhs, c);
        var y := EvalBoolean(w, rt, rhs, c);
        return cmp == CmpEq <==> x == y;
      } else if lt == TNum {
        var n := EvalNumber(w, rt, lhs, c);
        var rs := EvalNodeSet(w, rt, rhs, c, EvalAll);
        b := AnyNumber(w, rt.h, cmp, n, true, rs.items);
      } else {
        var s := EvalString(w, rt, lhs, c);
        var rs := EvalNodeSet(w, rt, rhs, c, EvalAll);
        b := AnyString(w, rt.h, cmp, s, rs.items);
      }
    }
  }

  /** compare_rel, on two operands in the order of the comparison. */
  method CompareRel(w: World, rt: Runtime, ghost e: Expr, cmp: Comparison, lhs: Expr, rhs: Expr, c: Context)
    returns (b: bool)
    requires Ready(w, rt) && WellFormed(lhs) && WellFormed(rhs)
    requires e.Compare? && ((lhs == e.left && rhs == e.right) || (lhs == e.right && rhs == e.left))
    ensures b == CompareLess(w, cmp, Meaning(w, lhs, c), Meaning(w, rhs, c))
    decreases e, 0, 0
  {
    hide Ready, Meaning, Tree.Valid, CompareLess, WellFormed;
    ReadyLinked(w, rt);
    var lt, rt' := TypeOf(lhs), TypeOf(rhs);
    ghost var lv, rv := Meaning(w, lhs, c), Meaning(w, rhs, c);
    TypeSound(w, lhs, c);
    TypeSound(w, rhs, c);
    if lt != TNodes && rt' != TNodes {
      var x := EvalNumber(w, rt, lhs, c);
      var y := EvalNumber(w, rt, rhs, c);
      LessNumbers(w, cmp, lv, rv);
      b := CompareNumbers(cmp, x, y);
    } else if lt == TNodes && rt' == TNodes {
      var ls := EvalNodeSet(w, rt, lhs, c, EvalAll);
      var rs := EvalNodeSet(w, rt, rhs, c, EvalAll);
      LessPair(w, cmp, lv, rv, ls.items, rs.items);
      b := AnyPair(w, rt.h, cmp, true, ls.items, rs.items);
    } else if lt != TNodes {
      var n := EvalNumber(w, rt, lhs, c);
      var rs := EvalNodeSet(w, rt, rhs, c, EvalAll);
      LessRight(w, cmp, lv, rv, rs.items);
      b := AnyNumber(w, rt.h, cmp, n, true, rs.items);
    } else {
      var ls := EvalNodeSet(w, rt, lhs, c, EvalAll);
      var n := EvalNumber(w, rt, rhs, c);
      LessLeft(w, cmp, lv, rv, ls.items);
      b := AnyNumber(w, rt.h, cmp, n, false, ls.items);
    }
  }

  lemma LessNumbers(w: World, cmp: Comparison, lv: Value, rv: Value)
    requires !lv.VNodes? && !rv.VNodes?
    ensures CompareLess(w, cmp, lv, rv) <==> CompareNumbers(cmp, ToNumber(w, lv), ToNumber(w, rv))
  {
    assert ToNumber(w, lv) in Numbers(w, lv) && ToNumber(w, rv) in Numbers(w, rv);
  }

  lemma NumbersOf(w: World, v: Value, list: seq<Item>)
    requires v.VNodes? && Covers(list, EvalAll, v.nodes)
    ensures forall x :: x in list ==> w.toNumber(Text(w, x)) in Numbers(w, v)
    ensures forall n :: n in Numbers(w, v) ==> exists x :: x in list && w.toNumber(Text(w, x)) == n
  {
  }

  lemma LessPair(w: World, cmp: Comparison, lv: Value, rv: Value, ls: seq<Item>, rs: seq<Item>)
    requires lv.VNodes? && rv.VNodes? && Covers(ls, EvalAll, lv.nodes) && Covers(rs, EvalAll, rv.nodes)
    ensures CompareLess(w, cmp, lv, rv) <==> exists x, y :: x in ls && y in rs && PairCompares(w, cmp, true, x, y)
  {
    NumbersOf(w, lv, ls);
    NumbersOf(w, rv, rs);
    if CompareLess(w, cmp, lv, rv) {
      var m, n :| m in Numbers(w, lv) && n in Numbers(w, rv) && CompareNumbers(cmp, m, n);
      var x :| x in ls && w.toNumber(Text(w, x)) == m;
      var y :| y in rs && w.toNumber(Text(w, y)) == n;
      assert PairCompares(w, cmp, true, x, y);
    }
  }

  lemma LessRight(w: World, cmp: Comparison, lv: Value, rv: Value, rs: seq<Item>)
    requires !lv.VNodes? && rv.VNodes? && Covers(rs, EvalAll, rv.nodes)
    ensures CompareLess(w, cmp, lv, rv) <==> exists y :: y in rs && NumberCompares(w, cmp, ToNumber(w, lv), true, y)
  {
    NumbersOf(w, rv, rs);
    assert ToNumber(w, lv) in Numbers(w, lv);
    if CompareLess(w, cmp, lv, rv) {
      var m, n :| m in Numbers(w, lv) && n in Numbers(w, rv) && CompareNumbers(cmp, m, n);
      var y :| y in rs && w.toNumber(Text(w, y)) == n;
      assert NumberCompares(w, cmp, ToNumber(w, lv), true, y);
    }
  }

  lemma LessLeft(w: World, cmp: Comparison, lv: Value, rv: Value, ls: seq<Item>)
    requires lv.VNodes? && !rv.VNodes? && Covers(ls, EvalAll, lv.nodes)
    ensures CompareLess(w, cmp, lv, rv) <==> exists y :: y in ls && NumberCompares(w, cmp, ToNumber(w, rv), false, y)
  {
    NumbersOf(w, lv, ls);
    assert ToNumber(w, rv) in Numbers(w, rv);
    if CompareLess(w, cmp, lv, rv) {
      var m, n :| m in Numbers(w, lv) && n in Numbers(w, rv) && CompareNumbers(cmp, m, n);
      var y :| y in ls && w.toNumber(Text(w, y)) == m;
      assert NumberCompares(w, cmp, ToNumber(w, rv), false, y);
    }
  }

  method EvalArguments(w: World, rt: Runtime, f: Function, i: nat, args: Exprs, c: Context) returns (vals: seq<Value>)
    requires Ready(w, rt) && AreWellFormed(args)
    ensures vals == Arguments(w, f, i, args, c)
    decreases args, 0
  {
    match args {
      case NoExprs =>
        vals := [];
      case MoreExprs(e, rest) =>
        var v: Value;
        if ArgumentType(f, i) == TBool {
          var b := EvalBoolean(w, rt, e, c);
          v := VBool(b);
        } else if ArgumentType(f, i) == TNum {
          var n := EvalNumber(w, rt, e, c);
          v := VNum(n);
        } else {
          var s := EvalString(w, rt, e, c);
          v := VStr(s);
        }
        var more := EvalArguments(w, rt, f, i + 1, rest, c);
        vals := [v] + more;
    }
  }

  /** The boolean of an expression by its kind. */
  lemma BooleanCases(w: World, e: Expr, c: Context)
    requires w.t.Valid()
    ensures
      var b := ToBool(w, Meaning(w, e, c));
      match e
      case Or(l, r) => b == (ToBool(w, Meaning(w, l, c)) || ToBool(w, Meaning(w, r, c)))
      case And(l, r) => b == (ToBool(w, Meaning(w, l, c)) && ToBool(w, Meaning(w, r, c)))
      case Compare(cmp, l, r) => b == Comparable(w, cmp, Meaning(w, l, c), Meaning(w, r, c))
      case Call(f, args) => ResultType(f) == TBool ==> b == CallBool(w, f, c.x, Arguments(w, f, 0, args, c))
      case Variable(name, ty) => ty == TBool ==> b == w.boolVar(name)
      case _ => true
  {
    hide Tree.Valid, CallBool, Arguments, Comparable;
  }

  /** eval_boolean. */
  method EvalBoolean(w: World, rt: Runtime, e: Expr, c: Context) returns (b: bool)
    requires Ready(w, rt) && WellFormed(e)
    ensures b == ToBool(w, Meaning(w, e, c))
    decreases e, if TypeOf(e) == TBool then 1 else 6
  {
    hide Ready, Tree.Valid, Comparable, CallBool, Meaning, ToBool, Arguments;
    ReadyLinked(w, rt);
    BooleanCases(w, e, c);
    match e {
      case Or(l, r) =>
        b := EvalBoolean(w, rt, l, c);
        if !b {
          b := EvalBoolean(w, rt, r, c);
        }
      case And(l, r) =>
        b := EvalBoolean(w, rt, l, c);
        if b {
          b := EvalBoolean(w, rt, r, c);
        }
      case Compare(_, _, _) =>
        b := EvalComparison(w, rt, e, c);
      case OptCompareAttribute(_, _) =>
        b := CompareAttribute(w, e, c);
      case Call(f, args) =>
        if ResultType(f) == TBool {
          var vals := EvalArguments(w, rt, f, 0, args, c);
          b := XPathFunctions.CallBoolean(w, rt.h, f, c.x, vals);
        } else {
          b := BooleanOf(w, rt, e, c);
        }
      case Variable(name, ty) =>
        if ty == TBool {
          b := w.boolVar(name);
        } else {
          b := BooleanOf(w, rt, e, c);
        }
      case _ =>
        b := BooleanOf(w, rt, e, c);
    }
  }

  lemma LessFlipped(w: World, cmp: Comparison, flipped: Comparison, a: Value, b: Value)
    requires (cmp == CmpGreater && flipped == CmpLess) || (cmp == CmpGreaterEq && flipped == CmpLessEq)
    ensures CompareLess(w, flipped, b, a) <==> CompareLess(w, cmp, a, b)
  {
    if CompareLess(w, flipped, b, a) {
      var y, x :| y in Numbers(w, b) && x in Numbers(w, a) && CompareNumbers(flipped, y, x);
      assert CompareNumbers(cmp, x, y);
    }
    if CompareLess(w, cmp, a, b) {
      var x, y :| x in Numbers(w, a) && y in Numbers(w, b) && CompareNumbers(cmp, x, y);
      assert CompareNumbers(flipped, y, x);
    }
  }

  method EvalComparison(w: World, rt: Runtime, e: Expr, c: Context) returns (b: bool)
    requires Ready(w, rt) && WellFormed(e) && e.Compare?
    ensures b == Comparable(w, e.cmp, Meaning(w, e.left, c), Meaning(w, e.right, c))
    decreases e, 0, 1
  {
    hide Ready, Tree.Valid, CompareEqual, CompareLess, Meaning;
    ReadyLinked(w, rt);
    match e.cmp {
      case CmpEq => b := CompareEq(w, rt, e, c);
      case CmpNe => b := CompareEq(w, rt, e, c);
      case CmpLess => b := CompareRel(w, rt, e, CmpLess, e.left, e.right, c);
      case CmpLessEq => b := CompareRel(w, rt, e, CmpLessEq, e.left, e.right, c);
      case CmpGreater =>
        b := CompareRel(w, rt, e, CmpLess, e.right, e.left, c);
        LessFlipped(w, e.cmp, CmpLess, Meaning(w, e.left, c), Meaning(w, e.right, c));
      case CmpGreaterEq =>
        b := CompareRel(w, rt, e, CmpLessEq, e.right, e.left, c);
        LessFlipped(w, e.cmp, CmpLessEq, Meaning(w, e.left, c), Meaning(w, e.right, c));
    }
  }

  /** The direct lookup that the optimizer puts in place of @name = 'value'. */
  method CompareAttribute(w: World, e: Expr, c: Context) returns (b: bool)
    requires w.t.Valid() && WellFormed(e) && e.OptCompareAttribute?
    ensures b == ToBool(w, Meaning(w, e, c))
  {
    var value := if e.right.StringConstant? then e.right.s else w.strVar(e.right.name);
    b := false;
    if InDoc(w.t, c.x) && c.x.attr == -1 {
      var attributes := w.t.data[c.x.node].attributes;
      var k := AttributeNamed(attributes, e.attrName);
      b := k < |attributes| && attributes[k].value == value && IsXPathAttribute(attributes[k].name);
    }
  }

  /** The conversion at the end of eval_boolean; a node set needs only be tested for emptiness. */
  method BooleanOf(w: World, rt: Runtime, e: Expr, c: Context) returns (b: bool)
    requires Ready(w, rt) && WellFormed(e) && TypeOf(e) != TBool
    ensures b == ToBool(w, Meaning(w, e, c))
    decreases e, 5
  {
    hide Ready, Tree.Valid, Meaning, WellFormed;
    ReadyLinked(w, rt);
    TypeSound(w, e, c);
    match TypeOf(e) {
      case TNum =>
        var n := EvalNumber(w, rt, e, c);
        b := n != Finite(0.0) && n != NaN;
      case TStr =>
        var s := EvalString(w, rt, e, c);
        b := s != "";
      case TNodes =>
        var ns := EvalNodeSet(w, rt, e, c, EvalAny);
        b := |ns.items| != 0;
        assert b ==> ns.items[0] in ns.items;
    }
  }

  /** The loop of sum(). */
  method AddUp(w: World, h: Traversal.Heap, items: seq<Item>) returns (n: Number)
    requires Traversal.Linked(w.t, h)
    ensures n == ListSum(w, items)
  {
    hide Traversal.Linked, ItemString;
    n := Finite(0.0);
    for i := 0 to |items|
      invariant n == ListSum(w, items[..i])
    {
      assert items[..i + 1][..i] == items[..i];
      var s := XPathFunctions.StringValue(w.t, h, items[i]);
      n := Plus(n, w.toNumber(s));
    }
    assert items[..|items|] == items;
  }

  /** The number of an expression by its kind. */
  lemma NumberCases(w: World, e: Expr, c: Context)
    requires w.t.Valid()
    ensures
      var n := ToNumber(w, Meaning(w, e, c));
      match e
      case Arith(op, l, r) => n == w.arith(op, ToNumber(w, Meaning(w, l, c)), ToNumber(w, Meaning(w, r, c)))
      case Negate(a) => n == w.negate(ToNumber(w, Meaning(w, a, c)))
      case NumberConstant(k) => n == k
      case Last => n == Natural(c.size)
      case Position => n == Natural(c.pos)
      case CountOf(a) => n == Natural(|ToNodes(Meaning(w, a, c))|)
      case SumOf(a) => n == SetSum(w, ToNodes(Meaning(w, a, c)))
      case Call(f, args) => ResultType(f) == TNum ==> n == CallNum(w, f, c.x, Arguments(w, f, 0, args, c))
      case Variable(name, ty) => ty == TNum ==> n == w.numVar(name)
      case _ => true
  {
    hide Tree.Valid, CallNum, Arguments, SetSum, ToNodes, Ordered;
  }

  /** eval_number. */
  method EvalNumber(w: World, rt: Runtime, e: Expr, c: Context) returns (n: Number)
    requires Ready(w, rt) && WellFormed(e)
    ensures n == ToNumber(w, Meaning(w, e, c))
    decreases e, if TypeOf(e) == TNum then 1 else 6
  {
    hide Ready, Tree.Valid, CallNum, Meaning, ToNumber, ToNodes, SetSum, Arguments;
    ReadyLinked(w, rt);
    NumberCases(w, e, c);
    match e {
      case Arith(op, l, r) =>
        var x := EvalNumber(w, rt, l, c);
        var y := EvalNumber(w, rt, r, c);
        n := w.arith(op, x, y);
      case Negate(a) =>
        var x := EvalNumber(w, rt, a, c);
        n := w.negate(x);
      case NumberConstant(k) =>
        n := k;
      case Last =>
        n := Natural(c.size);
      case Position =>
        n := Natural(c.pos);
      case CountOf(a) =>
        var ns := EvalNodeSet(w, rt, a, c, EvalAll);
        CountCovered(ns.items, ToNodes(Meaning(w, a, c)));
        n := Natural(|ns.items|);
      case SumOf(a) =>
        var ns := EvalNodeSet(w, rt, a, c, EvalAll);
        SumCovered(w, ns.items, ToNodes(Meaning(w, a, c)));
        n := AddUp(w, rt.h, ns.items);
      case Call(f, args) =>
        if ResultType(f) == TNum {
          var vals := EvalArguments(w, rt, f, 0, args, c);
          n := XPathFunctions.CallNumber(w, rt.h, f, c.x, vals);
        } else {
          n := NumberOf(w, rt, e, c);
        }
      case Variable(name, ty) =>
        if ty == TNum {
          n := w.numVar(name);
        } else {
          n := NumberOf(w, rt, e, c);
        }
      case _ =>
        n := NumberOf(w, rt, e, c);
    }
  }

  method NumberOf(w: World, rt: Runtime, e: Expr, c: Context) returns (n: Number)
    requires Ready(w, rt) && WellFormed(e) && TypeOf(e) != TNum
    ensures n == ToNumber(w, Meaning(w, e, c))
    decreases e, 5
  {
    hide Ready, Tree.Valid, Meaning, WellFormed;
    ReadyLinked(w, rt);
    TypeSound(w, e, c);
    if TypeOf(e) == TBool {
      var b := EvalBoolean(w, rt, e, c);
      n := if b then Finite(1.0) else Finite(0.0);
    } else {
      var s := EvalString(w, rt, e, c);
      n := w.toNumber(s);
    }
  }

  /** The string of an expression by its kind. */
  lemma TextCases(w: World, e: Expr, c: Context)
    requires w.t.Valid()
    ensures
      var s := ToText(w, Meaning(w, e, c));
      match e
      case StringConstant(k) => s == k
      case NameOf(f, a) =>
        var nodes := ToNodes(Meaning(w, a, c));
        s == if nodes == {} then "" else NameOfItem(w.t, f, First(nodes))
      case Translate(a, from, to) =>
        s == TranslateText(ToText(w, Meaning(w, a, c)), ToText(w, Meaning(w, from, c)), ToText(w, Meaning(w, to, c)))
      case OptTranslateTable(a, table) => s == TranslateByTable(ToText(w, Meaning(w, a, c)), table)
      case Call(f, args) => ResultType(f) == TStr ==> s == CallStr(w, f, c.x, Arguments(w, f, 0, args, c))
      case Variable(name, ty) => ty == TStr ==> s == w.strVar(name)
      case _ => true
  {
    hide Tree.Valid, CallStr, Arguments, ToNodes, NameOfItem, TranslateText, TranslateByTable, First;
  }

  /** eval_string. */
  method EvalString(w: World, rt: Runtime, e: Expr, c: Context) returns (s: string)
    requires Ready(w, rt) && WellFormed(e)
    ensures s == ToText(w, Meaning(w, e, c))
    decreases e, 4
  {
    hide Ready, Tree.Valid, CallStr, NameOfItem, Meaning, ToText, ToNodes, Arguments, TranslateText, TranslateByTable;
    ReadyLinked(w, rt);
    TextCases(w, e, c);
    match e {
      case StringConstant(k) =>
        s := k;
      case NameOf(f, a) =>
        var first := FirstNode(w, rt, a, c);
        s := "";
        if first.Some? {
          s := XPathFunctions.NameOfNode(w.t, rt.h, f, first.value);
        }
      case Translate(a, from, to) =>
        var x := EvalString(w, rt, a, c);
        var y := EvalString(w, rt, from, c);
        var z := EvalString(w, rt, to, c);
        s := TranslateText(x, y, z);
      case OptTranslateTable(a, table) =>
        var x := EvalString(w, rt, a, c);
        s := TranslateByTable(x, table);
      case Call(f, args) =>
        if ResultType(f) == TStr {
          var vals := EvalArguments(w, rt, f, 0, args, c);
          s := XPathFunctions.CallString(w, rt.h, f, c.x, vals);
        } else {
          s := TextOf(w, rt, e, c);
        }
      case Variable(name, ty) =>
        if ty == TStr {
          s := w.strVar(name);
        } else {
          s := TextOf(w, rt, e, c);
        }
      case _ =>
        s := TextOf(w, rt, e, c);
    }
  }

  /** The node a string function looks at: only the first node of the set is asked for. */
  method FirstNode(w: World, rt: Runtime, a: Expr, c: Context) returns (first: Option<Item>)
    requires Ready(w, rt) && WellFormed(a) && TypeOf(a) == TNodes
    ensures
      var s := ToNodes(Meaning(w, a, c));
      first == if s == {} then None else Some(First(s))
    decreases a, 2
  {
    hide Ready, Tree.Valid, Meaning, WellFormed;
    ReadyLinked(w, rt);
    var ns := EvalNodeSet(w, rt, a, c, EvalFirst);
    if |ns.items| == 0 {
      first := None;
    } else {
      var x := XPathNodeSets.XPathFirst(ns);
      FirstCovered(ns.items, EvalFirst, ToNodes(Meaning(w, a, c)), x);
      first := Some(x);
    }
  }

  method TextOf(w: World, rt: Runtime, e: Expr, c: Context) returns (s: string)
    requires Ready(w, rt) && WellFormed(e) && TypeOf(e) != TStr
    ensures s == ToText(w, Meaning(w, e, c))
    decreases e, 3
  {
    hide Ready, Tree.Valid, Meaning, WellFormed;
    ReadyLinked(w, rt);
    TypeSound(w, e, c);
    match TypeOf(e) {
      case TBool =>
        var b := EvalBoolean(w, rt, e, c);
        s := if b then "true" else "false";
      case TNum =>
        var n := EvalNumber(w, rt, e, c);
        s := w.toText(n);
      case TNodes =>
        var first := FirstNode(w, rt, e, c);
        s := "";
        if first.Some? {
          s := XPathFunctions.StringValue(w.t, rt.h, first.value);
        }
    }
  }
}
