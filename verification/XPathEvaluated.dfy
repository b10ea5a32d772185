/**
 What the laws of the core library mean for evaluated queries.
 */
module XPathEvaluated {

  import opened XPathEval
  import opened XPathFacts
  import opened XPathLaws
  import opened XPathModel
  import XPathOptimize

  /** An expression and its negation are evaluated to opposite booleans. */
  method EvaluateNot(w: World, rt: Runtime, e: Expr, c: Context) returns (b: bool, negated: bool)
    requires Ready(w, rt) && WellFormed(e)
    ensures b == Truth(w, e, c) && negated == !b
  {
    hide Meaning;
    assert AreWellFormed(NoExprs) && AreWellFormed(One(e)) && WellFormed(Call(FNot, One(e)));
    NotNegates(w, e, c);
    b := XPathOptimize.EvaluateBoolean(w, rt, e, c);
    negated := XPathOptimize.EvaluateBoolean(w, rt, Call(FNot, One(e)), c);
  }
}
