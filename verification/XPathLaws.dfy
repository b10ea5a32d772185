/**
 What the functions of the core library promise about the meanings of their arguments (sections 3.4 and 4.2 to 4.4 of
 XPath 1.0), stated without the functions that compute them.
 */
module XPathLaws {

  import opened Common
  import opened XmlTree
  import opened XPathLibrary
  import opened XPathModel
  import XPathFunctions
  import XmlText

  function One(a: Expr): Exprs {
    MoreExprs(a, NoExprs)
  }

  function Two(a: Expr, b: Expr): Exprs {
    MoreExprs(a, One(b))
  }

  function Three(a: Expr, b: Expr, c: Expr): Exprs {
    MoreExprs(a, Two(b, c))
  }

  // What an expression means as a boolean, a number and a string

  ghost predicate Truth(w: World, e: Expr, c: Context)
    requires w.t.Valid()
  {
    ToBool(w, Meaning(w, e, c))
  }

  ghost function NumberFor(w: World, e: Expr, c: Context): Number
    requires w.t.Valid()
  {
    ToNumber(w, Meaning(w, e, c))
  }

  ghost function TextFor(w: World, e: Expr, c: Context): string
    requires w.t.Valid()
  {
    ToText(w, Meaning(w, e, c))
  }

  // Calls

  ghost function CallValue(w: World, f: Function, x: Item, vals: seq<Value>): Value {
    match ResultType(f)
    case TBool => VBool(CallBool(w, f, x, vals))
    case TNum => VNum(CallNum(w, f, x, vals))
    case _ => VStr(CallStr(w, f, x, vals))
  }

  /** A call means what its function makes of the converted arguments. */
  lemma CallMeans(w: World, f: Function, args: Exprs, c: Context)
    requires w.t.Valid()
    ensures Meaning(w, Call(f, args), c) == CallValue(w, f, c.x, Arguments(w, f, 0, args, c))
    ensures args == NoExprs ==> Arguments(w, f, 0, args, c) == []
  {
    hide CallBool, CallNum, CallStr, Tree.Valid;
  }

  lemma CallOne(w: World, f: Function, a: Expr, c: Context)
    requires w.t.Valid()
    ensures Meaning(w, Call(f, One(a)), c) == CallValue(w, f, c.x, [Converted(w, Meaning(w, a, c), ArgumentType(f, 0))])
  {
    hide CallValue, Converted, ArgumentType, Tree.Valid;
    CallMeans(w, f, One(a), c);
    var x := Converted(w, Meaning(w, a, c), ArgumentType(f, 0));
    assert Arguments(w, f, 0, One(a), c) == [x] + [] == [x];
  }

  lemma CallTwo(w: World, f: Function, a: Expr, b: Expr, c: Context)
    requires w.t.Valid()
    ensures Meaning(w, Call(f, Two(a, b)), c) ==
      CallValue(w, f, c.x, [Converted(w, Meaning(w, a, c), ArgumentType(f, 0)),
                            Converted(w, Meaning(w, b, c), ArgumentType(f, 1))])
  {
    hide CallValue, Converted, ArgumentType, Tree.Valid;
    CallMeans(w, f, Two(a, b), c);
    var x, y := Converted(w, Meaning(w, a, c), ArgumentType(f, 0)), Converted(w, Meaning(w, b, c), ArgumentType(f, 1));
    assert Arguments(w, f, 1, One(b), c) == [y] + [];
    assert Arguments(w, f, 0, Two(a, b), c) == [x] + ([y] + []) == [x, y];
  }

  lemma CallThree(w: World, f: Function, a: Expr, b: Expr, d: Expr, c: Context)
    requires w.t.Valid()
    ensures Meaning(w, Call(f, Three(a, b, d)), c) ==
      CallValue(w, f, c.x, [Converted(w, Meaning(w, a, c), ArgumentType(f, 0)),
                            Converted(w, Meaning(w, b, c), ArgumentType(f, 1)),
                            Converted(w, Meaning(w, d, c), ArgumentType(f, 2))])
  {
    hide CallValue, Converted, ArgumentType, Tree.Valid;
    CallMeans(w, f, Three(a, b, d), c);
    var x, y := Converted(w, Meaning(w, a, c), ArgumentType(f, 0)), Converted(w, Meaning(w, b, c), ArgumentType(f, 1));
    var z := Converted(w, Meaning(w, d, c), ArgumentType(f, 2));
    assert Arguments(w, f, 2, One(d), c) == [z] + [];
    assert Arguments(w, f, 1, Two(b, d), c) == [y] + ([z] + []);
    assert Arguments(w, f, 0, Three(a, b, d), c) == [x] + ([y] + ([z] + [])) == [x, y, z];
  }

  // Booleans (section 4.3)

  /** not() is true exactly of what is false. */
  lemma NotNegates(w: World, e: Expr, c: Context)
    requires w.t.Valid()
    ensures Meaning(w, Call(FNot, One(e)), c) == VBool(!Truth(w, e, c))
    ensures Truth(w, Call(FNot, One(Call(FNot, One(e)))), c) <==> Truth(w, e, c)
    ensures Truth(w, Call(FNot, One(Call(FFalse, NoExprs))), c) && Truth(w, Call(FTrue, NoExprs), c)
  {
    hide Meaning, Arguments, Tree.Valid;
    CallOne(w, FNot, e, c);
    CallOne(w, FNot, Call(FNot, One(e)), c);
    CallOne(w, FNot, Call(FFalse, NoExprs), c);
    CallMeans(w, FFalse, NoExprs, c);
    CallMeans(w, FTrue, NoExprs, c);
  }

  /** The connectives, by their laws: or is true beside what is true, and is false beside what is false. */
  lemma Connectives(w: World, a: Expr, b: Expr, c: Context)
    requires w.t.Valid()
    ensures Truth(w, a, c) ==> Truth(w, Or(a, b), c) && Truth(w, Or(b, a), c)
    ensures !Truth(w, a, c) ==> !Truth(w, And(a, b), c) && !Truth(w, And(b, a), c)
    ensures !Truth(w, a, c) && !Truth(w, b, c) ==> !Truth(w, Or(a, b), c)
    ensures Truth(w, a, c) && Truth(w, b, c) ==> Truth(w, And(a, b), c)
    ensures Truth(w, Call(FNot, One(Or(a, b))), c) <==>
            Truth(w, And(Call(FNot, One(a)), Call(FNot, One(b))), c)
  {
    hide Tree.Valid;
    NotNegates(w, Or(a, b), c);
    NotNegates(w, a, c);
    NotNegates(w, b, c);
  }

  /** boolean(): a number is true unless it is zero or not a number, a string and a node set unless they are empty. */
  lemma BooleanOf(w: World, e: Expr, c: Context)
    requires w.t.Valid()
    ensures
      var b := Meaning(w, Call(FBoolean, One(e)), c);
      b.VBool? &&
      match Meaning(w, e, c)
      case VBool(x) => b.b == x
      case VNum(n) => !b.b <==> n == NaN || (NumberEq(n, Natural(0)))
      case VStr(s) => b.b <==> |s| > 0
      case VNodes(s) => b.b <==> exists x :: x in s
  {
    hide Meaning, Arguments, Tree.Valid;
    CallOne(w, FBoolean, e, c);
    var v := Meaning(w, e, c);
    if v.VNodes? && v.nodes != {} {
      var x :| x in v.nodes;
    }
  }

  // Numbers (section 4.4)

  /** number(): true is one and false is zero; a node set is read by the string of its first node. */
  lemma NumberOf(w: World, e: Expr, c: Context)
    requires w.t.Valid()
    ensures
      var n := Meaning(w, Call(FNumber1, One(e)), c);
      n.VNum? &&
      match Meaning(w, e, c)
      case VBool(x) => NumberEq(n.n, Natural(if x then 1 else 0))
      case VNum(m) => n.n == m
      case VStr(s) => n.n == w.toNumber(s)
      case VNodes(_) => n.n == w.toNumber(TextFor(w, e, c))
  {
    hide Meaning, Arguments, Tree.Valid;
    CallOne(w, FNumber1, e, c);
  }

  function Whole(k: int): Number {
    Finite(k as real)
  }

  predicate IsFloor(k: int, r: real) {
    k as real <= r < (k + 1) as real
  }

  predicate IsCeiling(k: int, r: real) {
    (k - 1) as real < r <= k as real
  }

  /** The nearest integer, the greater one of two. */
  predicate IsRounded(k: int, r: real) {
    k as real - 0.5 <= r < k as real + 0.5
  }

  /** floor() is the greatest integer that is not greater, ceiling() the least that is not less, round() the nearest. */
  lemma Integral(w: World, e: Expr, c: Context)
    requires w.t.Valid()
    ensures
      var n := NumberFor(w, e, c);
      var l, u, r :=
        Meaning(w, Call(FFloor, One(e)), c), Meaning(w, Call(FCeiling, One(e)), c), Meaning(w, Call(FRound, One(e)), c);
      && (!n.Finite? ==> l == u == r == VNum(n))
      && (n.Finite? ==> exists k :: l == VNum(Whole(k)) && IsFloor(k, n.r))
      && (n.Finite? ==> exists k :: u == VNum(Whole(k)) && IsCeiling(k, n.r))
      && (n.Finite? ==> exists k :: r == VNum(Whole(k)) && IsRounded(k, n.r))
  {
    hide Meaning, Arguments, Tree.Valid, ToNumber;
    CallOne(w, FFloor, e, c);
    CallOne(w, FCeiling, e, c);
    CallOne(w, FRound, e, c);
    IntegralNumbers(NumberFor(w, e, c));
  }

  lemma IntegralNumbers(n: Number)
    ensures !n.Finite? ==> FloorOf(n) == CeilingOf(n) == RoundOf(n) == n
    ensures n.Finite? ==>
      && (exists k :: FloorOf(n) == Whole(k) && IsFloor(k, n.r))
      && (exists k :: CeilingOf(n) == Whole(k) && IsCeiling(k, n.r))
      && exists k :: RoundOf(n) == Whole(k) && IsRounded(k, n.r)
  {
    if n.Finite? {
      var k, m, r := n.r.Floor, -(-n.r).Floor, (n.r + 0.5).Floor;
      assert FloorOf(n) == Whole(k) && IsFloor(k, n.r);
      assert CeilingOf(n) == Whole(m) && IsCeiling(m, n.r);
      assert RoundOf(n) == Whole(r) && IsRounded(r, n.r);
    }
  }

  /** Numbers are ordered like the reals, between the infinities; not-a-number is only different (section 3.4). */
  lemma NumbersCompare(a: Number, b: Number)
    ensures a != NaN && b != NaN ==>
      && (CompareNumbers(CmpLess, a, b) <==> !CompareNumbers(CmpGreaterEq, a, b))
      && (CompareNumbers(CmpGreater, a, b) <==> !CompareNumbers(CmpLessEq, a, b))
      && (CompareNumbers(CmpEq, a, b) <==> CompareNumbers(CmpLessEq, a, b) && CompareNumbers(CmpGreaterEq, a, b))
    ensures CompareNumbers(CmpNe, a, b) <==> !CompareNumbers(CmpEq, a, b)
    ensures a.Finite? && b.Finite? ==> (CompareNumbers(CmpLess, a, b) <==> a.r < b.r)
    ensures a.Finite? ==> CompareNumbers(CmpLess, NegInf, a) && CompareNumbers(CmpLess, a, PosInf)
    ensures CompareNumbers(CmpLess, NegInf, PosInf)
    ensures forall cmp :: a == NaN || b == NaN ==> (CompareNumbers(cmp, a, b) <==> cmp == CmpNe)
  {
  }

  // Strings (section 4.2)

  /** string() of a boolean is its name, of a node set the string of its first node in document order. */
  lemma StringOf(w: World, e: Expr, c: Context)
    requires w.t.Valid()
    ensures
      var s := Meaning(w, Call(FString1, One(e)), c);
      s.VStr? &&
      match Meaning(w, e, c)
      case VBool(x) => if x then s.s == "true" else s.s == "false"
      case VNum(n) => s.s == w.toText(n)
      case VStr(t) => s.s == t
      case VNodes(nodes) =>
        && (nodes == {} ==> s.s == "")
        && forall x :: x in nodes && (forall y :: y in nodes ==> y == x || Before(x, y)) ==> s.s == Text(w, x)
  {
    hide Meaning, Arguments, Tree.Valid;
    CallOne(w, FString1, e, c);
    var v := Meaning(w, e, c);
    if v.VNodes? {
      forall x | x in v.nodes && (forall y :: y in v.nodes ==> y == x || Before(x, y))
        ensures TextFor(w, e, c) == Text(w, x)
      {
        assert x == First(v.nodes) || Before(x, First(v.nodes));
      }
    }
  }

  lemma SearchCalls(w: World, x: Item, s: string, p: string)
    ensures CallValue(w, FStartsWith, x, [VStr(s), VStr(p)]) == VBool(p <= s)
    ensures CallValue(w, FContains, x, [VStr(s), VStr(p)]) == VBool(Find(s, p, 0).Some?)
    ensures CallValue(w, FSubstringBefore, x, [VStr(s), VStr(p)]) == VStr(SubstringBefore(s, p))
    ensures CallValue(w, FSubstringAfter, x, [VStr(s), VStr(p)]) == VStr(SubstringAfter(s, p))
  {
    hide Find;
  }

  /** starts-with() and contains(): there is a rest, and there are two. */
  lemma StartsAndContains(w: World, a: Expr, b: Expr, c: Context)
    requires w.t.Valid()
    ensures
      var s, p := TextFor(w, a, c), TextFor(w, b, c);
      && (Truth(w, Call(FStartsWith, Two(a, b)), c) <==> exists rest :: s == p + rest)
      && (Truth(w, Call(FContains, Two(a, b)), c) <==> exists x, y :: s == x + (p + y))
  {
    var s, p := TextFor(w, a, c), TextFor(w, b, c);
    hide Meaning, Arguments, Tree.Valid, ToText, CallValue, Find;
    CallTwo(w, FStartsWith, a, b, c);
    CallTwo(w, FContains, a, b, c);
    SearchCalls(w, c.x, s, p);
    if p <= s {
      assert s == p + s[|p|..];
    }
    ContainsMeans(s, p);
  }

  lemma ContainsMeans(s: string, p: string)
    ensures Find(s, p, 0).Some? <==> exists x, y :: s == x + (p + y)
  {
    hide Find;
    var k := Find(s, p, 0);
    if k.Some? {
      FoundAt(s, p, k.value);
    }
    forall x, y | s == x + (p + y)
      ensures Occurs(s, p, |x|)
    {
      assert s[|x|..|x| + |p|] == p;
    }
  }

  /**
   substring-before(), the pattern and substring-after() make up the text, if the pattern occurs, and where it first
   does.
   */
  lemma BeforeAndAfter(w: World, a: Expr, b: Expr, c: Context)
    requires w.t.Valid()
    ensures
      var s, p := TextFor(w, a, c), TextFor(w, b, c);
      var x, y := Meaning(w, Call(FSubstringBefore, Two(a, b)), c), Meaning(w, Call(FSubstringAfter, Two(a, b)), c);
      && x.VStr? && y.VStr?
      && (Truth(w, Call(FContains, Two(a, b)), c) ==> s == x.s + (p + y.s))
      && (!Truth(w, Call(FContains, Two(a, b)), c) ==> x.s == y.s == "")
      && forall u, v :: s == u + (p + v) ==> |x.s| <= |u|
  {
    var s, p := TextFor(w, a, c), TextFor(w, b, c);
    hide Meaning, Arguments, Tree.Valid, ToText, CallValue, Find;
    CallTwo(w, FSubstringBefore, a, b, c);
    CallTwo(w, FSubstringAfter, a, b, c);
    CallTwo(w, FContains, a, b, c);
    SearchCalls(w, c.x, s, p);
    FoundFirst(s, p);
  }

  lemma FoundFirst(s: string, p: string)
    ensures
      var k := Find(s, p, 0);
      && (k.Some? ==> s == SubstringBefore(s, p) + (p + SubstringAfter(s, p)))
      && forall u, v :: s == u + (p + v) ==> |SubstringBefore(s, p)| <= |u|
  {
    hide Find, Occurs;
    var k := Find(s, p, 0);
    if k.Some? {
      FoundAt(s, p, k.value);
    }
    forall u, v | s == u + (p + v)
      ensures Occurs(s, p, |u|)
    {
      OccursBetween(u, p, v);
    }
  }

  lemma FoundAt(s: string, p: string, k: nat)
    requires Occurs(s, p, k)
    ensures k + |p| <= |s| && s == s[..k] + (p + s[k + |p|..])
  {
  }

  lemma OccursBetween(u: string, p: string, v: string)
    ensures Occurs(u + (p + v), p, |u|)
  {
    assert (u + (p + v))[|u|..|u| + |p|] == p;
  }

  /** concat() of two strings or more is the first one with what concat() of the others gives. */
  lemma Concatenated(w: World, a: Expr, rest: Exprs, c: Context)
    requires w.t.Valid()
    ensures
      var all, others := Meaning(w, Call(FConcat, MoreExprs(a, rest)), c), Meaning(w, Call(FConcat, rest), c);
      && all.VStr? && others.VStr? && all.s == TextFor(w, a, c) + others.s
      && (rest == NoExprs ==> others.s == "")
  {
    hide Meaning, ToText, Tree.Valid;
    CallMeans(w, FConcat, MoreExprs(a, rest), c);
    CallMeans(w, FConcat, rest, c);
    var first, tail := VStr(TextFor(w, a, c)), Arguments(w, FConcat, 1, rest, c);
    SameArguments(w, rest, 1, 0, c);
    assert Strings([first] + tail) == [first.s] + Strings(tail);
    JoinedFirst(first.s, Strings(tail));
    NothingJoined();
  }

  lemma {:induction false} SameArguments(w: World, args: Exprs, i: nat, j: nat, c: Context)
    requires w.t.Valid()
    ensures Arguments(w, FConcat, i, args, c) == Arguments(w, FConcat, j, args, c)
    decreases args
  {
    hide Meaning, Converted, Tree.Valid;
    if args.MoreExprs? {
      SameArguments(w, args.tail, i + 1, j + 1, c);
    }
  }

  /** string-length() is the number of characters. */
  lemma Lengths(w: World, e: Expr, c: Context)
    requires w.t.Valid()
    ensures Meaning(w, Call(FStringLength1, One(e)), c) == VNum(Finite(|TextFor(w, e, c)| as real))
  {
    hide Meaning, Arguments, Tree.Valid, ToText;
    CallOne(w, FStringLength1, e, c);
  }

  // substring()

  function Bounded(k: int, n: nat): nat {
    if k < 0 then 0 else if k > n then n else k
  }

  /** substring() of finite numbers: from the rounded position on, as many characters as the rounded length says. */
  lemma SubstringFinite(w: World, s: Expr, from: Expr, length: Expr, c: Context, k: int, n: int)
    requires w.t.Valid() && NumberFor(w, from, c).Finite? && IsRounded(k, NumberFor(w, from, c).r)
    ensures
      var text := TextFor(w, s, c);
      Meaning(w, Call(FSubstring2, Two(s, from)), c) == VStr(text[Bounded(k - 1, |text|)..])
    ensures NumberFor(w, length, c).Finite? && IsRounded(n, NumberFor(w, length, c).r) ==>
      var text := TextFor(w, s, c);
      var lo, hi := Bounded(k - 1, |text|), Bounded(k + n - 1, |text|);
      Meaning(w, Call(FSubstring3, Three(s, from, length)), c) == VStr(if lo < hi then text[lo..hi] else "")
  {
    hide TextFor, NumberFor, Meaning, Substring, Tree.Valid, RoundOf;
    SubstringArguments(w, s, from, length, c);
    var text, x, y := TextFor(w, s, c), NumberFor(w, from, c), NumberFor(w, length, c);
    RoundedIs(x, k);
    SubstringIs(text, x, k, None, |text| + 1);
    if y.Finite? && IsRounded(n, y.r) {
      RoundedIs(y, n);
      SubstringIs(text, x, k, Some(y), k + n);
    }
  }

  lemma SubstringArguments(w: World, s: Expr, from: Expr, length: Expr, c: Context)
    requires w.t.Valid()
    ensures Meaning(w, Call(FSubstring2, Two(s, from)), c) ==
      VStr(Substring(TextFor(w, s, c), NumberFor(w, from, c), None))
    ensures Meaning(w, Call(FSubstring3, Three(s, from, length)), c) ==
      VStr(Substring(TextFor(w, s, c), NumberFor(w, from, c), Some(NumberFor(w, length, c))))
  {
    hide ToText, ToNumber, Substring, Meaning, Arguments, Tree.Valid;
    CallTwo(w, FSubstring2, s, from, c);
    CallThree(w, FSubstring3, s, from, length, c);
  }

  lemma RoundedIs(x: Number, k: int)
    requires x.Finite? && IsRounded(k, x.r)
    ensures RoundOf(x) == Finite(k as real)
  {
    assert (x.r + 0.5).Floor == k;
  }

  lemma SubstringIs(s: string, x: Number, k: int, length: Option<Number>, end: int)
    requires RoundOf(x) == Finite(k as real)
    requires if length.None? then end == |s| + 1 else RoundOf(length.value) == Finite((end - k) as real)
    ensures
      var lo, hi := Bounded(k - 1, |s|), Bounded(end - 1, |s|);
      Substring(s, x, length) == if lo < hi then s[lo..hi] else ""
    ensures length.None? ==> Substring(s, x, length) == s[Bounded(k - 1, |s|)..]
  {
    var first := Finite(k as real);
    var last := if length.None? then None else Some(Plus(first, RoundOf(length.value)));
    var lo, hi := Bounded(k - 1, |s|), Bounded(end - 1, |s|);
    assert last.Some? ==> last.value == Finite(end as real);
    hide RoundOf;
    forall j: nat | 1 <= j <= |s|
      ensures Within(first, last, j) <==> k <= j && j < end
    {
    }
    hide Within;
    if lo < hi {
      XPathFunctions.PickedSlice(s, first, last, lo + 1, hi + 1, |s|);
    } else {
      XPathFunctions.PickedNone(s, first, last, |s|);
    }
  }

  /** Where a number is not one, nothing is left: neither where the text begins, nor how long it is, nor their sum. */
  lemma SubstringNothing(w: World, s: Expr, from: Expr, length: Expr, c: Context)
    requires w.t.Valid()
    ensures
      var x, y := NumberFor(w, from, c), NumberFor(w, length, c);
      && (x == NaN || x == PosInf ==>
            Meaning(w, Call(FSubstring2, Two(s, from)), c) == VStr("") &&
            Meaning(w, Call(FSubstring3, Three(s, from, length)), c) == VStr(""))
      && (y == NaN || y == NegInf || (x == NegInf && (y == PosInf || y.Finite?)) ==>
            Meaning(w, Call(FSubstring3, Three(s, from, length)), c) == VStr(""))
      && (x == NegInf ==> Meaning(w, Call(FSubstring2, Two(s, from)), c) == VStr(TextFor(w, s, c)))
      && (y == PosInf && x.Finite? ==>
            Meaning(w, Call(FSubstring3, Three(s, from, length)), c) == Meaning(w, Call(FSubstring2, Two(s, from)), c))
  {
    hide TextFor, NumberFor, Meaning, Tree.Valid, Substring;
    SubstringArguments(w, s, from, length, c);
    var text, x, y := TextFor(w, s, c), NumberFor(w, from, c), NumberFor(w, length, c);
    NoneLeft(text, x, y);
  }

  lemma NoneLeft(s: string, x: Number, y: Number)
    ensures x == NaN || x == PosInf ==> Substring(s, x, None) == Substring(s, x, Some(y)) == ""
    ensures y == NaN || y == NegInf || (x == NegInf && (y == PosInf || y.Finite?)) ==> Substring(s, x, Some(y)) == ""
    ensures x == NegInf ==> Substring(s, x, None) == s
    ensures y == PosInf && x.Finite? ==> Substring(s, x, Some(y)) == Substring(s, x, None)
  {
    var first, last := RoundOf(x), Plus(RoundOf(x), RoundOf(y));
    if x == NaN || x == PosInf {
      XPathFunctions.PickedNone(s, first, None, |s|);
      XPathFunctions.PickedNone(s, first, Some(last), |s|);
    } else if y == NaN || y == NegInf || (x == NegInf && (y == PosInf || y.Finite?)) {
      XPathFunctions.PickedNone(s, first, Some(last), |s|);
    }
    if x == NegInf {
      XPathFunctions.PickedSlice(s, first, None, 1, |s| + 1, |s|);
      assert s[0..|s|] == s;
    }
    if y == PosInf && x.Finite? {
      PickedTo(s, first, |s|);
    }
  }

  lemma {:induction false} PickedTo(s: string, first: Number, k: nat)
    requires k <= |s|
    ensures Picked(s, first, Some(PosInf), k) == Picked(s, first, None, k)
  {
    if k > 0 {
      PickedTo(s, first, k - 1);
    }
  }

  // normalize-space()

  /** The words of a text: what is between white space. */
  function Words(s: string): seq<string> {
    if s == "" then []
    else if XmlText.IsSpace(s[0]) then Words(s[1..])
    else [s[..WordLength(s)]] + Words(s[WordLength(s)..])
  }

  function WordLength(s: string): (k: nat)
    ensures k <= |s| && (s != "" && !XmlText.IsSpace(s[0]) ==> k > 0)
    ensures (forall i :: 0 <= i < k ==> !XmlText.IsSpace(s[i])) && (k < |s| ==> XmlText.IsSpace(s[k]))
  {
    if s == "" || XmlText.IsSpace(s[0]) then 0 else 1 + WordLength(s[1..])
  }

  /** The words with one space between them. */
  function Spaced(words: seq<string>): string {
    if words == [] then "" else if |words| == 1 then words[0] else words[0] + (" " + Spaced(words[1..]))
  }

  lemma Normalized(w: World, e: Expr, c: Context)
    requires w.t.Valid()
    ensures Meaning(w, Call(FNormalizeSpace1, One(e)), c) == VStr(Spaced(Words(TextFor(w, e, c))))
  {
    hide ToText, Meaning, Arguments, Tree.Valid, NormalizedSpace, Words, Spaced;
    CallOne(w, FNormalizeSpace1, e, c);
    WordsSpaced(TextFor(w, e, c));
  }

  lemma WordsSpaced(s: string)
    ensures NormalizedSpace(s) == Spaced(Words(s))
  {
    SpacedIs(s, true);
  }

  /** Behind a blank, or at the start, the words; behind a word, a space in front of them. */
  lemma {:induction false} SpacedIs(s: string, after: bool)
    requires after || s == "" || XmlText.IsSpace(s[0])
    ensures XmlText.Single(s, true, after) ==
      if after || Words(s) == [] then Spaced(Words(s)) else " " + Spaced(Words(s))
    decreases |s|
  {
    if s != "" {
      if XmlText.IsSpace(s[0]) {
        SpacedIs(s[1..], true);
        WordsFull(s[1..]);
        SpacedEmpty(Words(s[1..]));
      } else {
        var k := WordLength(s);
        WordKept(s, k);
        SpacedIs(s[k..], false);
        var word, rest := s[..k], Words(s[k..]);
        assert Words(s) == [word] + rest && ([word] + rest)[1..] == rest;
      }
    }
  }

  lemma {:induction false} WordsFull(s: string)
    ensures forall i :: 0 <= i < |Words(s)| ==> Words(s)[i] != ""
    decreases |s|
  {
    if s != "" {
      if XmlText.IsSpace(s[0]) {
        WordsFull(s[1..]);
      } else {
        WordsFull(s[WordLength(s)..]);
      }
    }
  }

  lemma SpacedEmpty(words: seq<string>)
    requires words != [] ==> words[0] != ""
    ensures Spaced(words) == "" <==> words == []
  {
  }

  lemma {:induction false} WordKept(s: string, k: nat)
    requires k <= |s| && forall i :: 0 <= i < k ==> !XmlText.IsSpace(s[i])
    ensures forall after :: XmlText.Single(s, true, after) == s[..k] + XmlText.Single(s[k..], true, k == 0 && after)
    decreases k
  {
    if k > 0 {
      WordKept(s[1..], k - 1);
      assert s[..k] == [s[0]] + s[1..][..k - 1] && s[k..] == s[1..][k - 1..];
    } else {
      assert s[0..] == s && s[..0] == "";
    }
  }
}
