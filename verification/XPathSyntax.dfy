/**
 The grammar of expressions, nonterminal by nonterminal (sections 3.3 to 3.5 of XPath 1.0), over operands and operators.

 An operand is a whole path, literal, call or bracketed expression.  The names or, and, div and mod and the asterisk are
 operators only behind an operand; where an operand is due they are element names or the wildcard (section 3.7).
 */
module XPathSyntax {
  datatype BinaryOp =
    | OpOr | OpAnd | OpEqual | OpNotEqual | OpLess | OpGreater | OpLessEqual | OpGreaterEqual | OpAdd | OpSubtract
    | OpMultiply | OpDivide | OpMod | OpUnion

  /** nodes tells whether an operand is a node set. */
  datatype Token = Operand(id: nat, nodes: bool) | Operator(op: BinaryOp) | OtherToken

  datatype Ast = Leaf(token: Token) | Negation(arg: Ast) | Binary(op: BinaryOp, left: Ast, right: Ast)

  datatype Nonterminal =
    | OrExpr | AndExpr | EqualityExpr | RelationalExpr | AdditiveExpr | MultiplicativeExpr | UnaryExpr | UnionExpr
    | PathExpr

  /** The operators in the productions of a nonterminal. */
  function Operators(nt: Nonterminal): set<BinaryOp> {
    match nt
    case OrExpr => {OpOr}
    case AndExpr => {OpAnd}
    case EqualityExpr => {OpEqual, OpNotEqual}
    case RelationalExpr => {OpLess, OpGreater, OpLessEqual, OpGreaterEqual}
    case AdditiveExpr => {OpAdd, OpSubtract}
    case MultiplicativeExpr => {OpMultiply, OpDivide, OpMod}
    case UnionExpr => {OpUnion}
    case _ => {}
  }

  /** What stands alone in the first production of a nonterminal, and behind the operator in the others. */
  function Operands(nt: Nonterminal): Nonterminal {
    match nt
    case OrExpr => AndExpr
    case AndExpr => EqualityExpr
    case EqualityExpr => RelationalExpr
    case RelationalExpr => AdditiveExpr
    case AdditiveExpr => MultiplicativeExpr
    case MultiplicativeExpr => UnaryExpr
    case UnaryExpr => UnionExpr
    case _ => PathExpr
  }

  /** The number of productions between a nonterminal and a path. */
  function Depth(nt: Nonterminal): nat {
    match nt
    case OrExpr => 8
    case AndExpr => 7
    case EqualityExpr => 6
    case RelationalExpr => 5
    case AdditiveExpr => 4
    case MultiplicativeExpr => 3
    case UnaryExpr => 2
    case UnionExpr => 1
    case PathExpr => 0
  }

  /** The tokens derive from the nonterminal, and e is the tree of the derivation. */
  ghost predicate Derives(nt: Nonterminal, e: Ast, ts: seq<Token>)
    decreases e, Depth(nt)
  {
    if nt == PathExpr then
      e.Leaf? && ts == [e.token] && (e.token.Operand? || IsName(e.token))
    else
      || Derives(Operands(nt), e, ts)
      || (nt == UnaryExpr && e.Negation? && ts != [] && ts[0] == Operator(OpSubtract) && Derives(nt, e.arg, ts[1..]))
      || (e.Binary? && e.op in Operators(nt) && (nt == UnionExpr ==> GivesNodes(e.left) && GivesNodes(e.right)) &&
          exists k ::
            0 <= k < |ts| && ts[k] == Operator(e.op) && Derives(nt, e.left, ts[..k]) &&
            Derives(Operands(nt), e.right, ts[k + 1..]))
  }

  /** Element names and the wildcard that look like operators. */
  predicate IsName(t: Token) {
    t.Operator? && (t.op == OpOr || t.op == OpAnd || t.op == OpDivide || t.op == OpMod || t.op == OpMultiply)
  }

  /** A union is of node sets. */
  predicate GivesNodes(e: Ast) {
    (e.Leaf? && (IsName(e.token) || (e.token.Operand? && e.token.nodes))) || (e.Binary? && e.op == OpUnion)
  }
}
