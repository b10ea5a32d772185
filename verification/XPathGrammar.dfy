/**
 Precedence climbing: the parser of XPath expressions over operands and operators
 (sections 3.3 to 3.5 of XPath 1.0).
 */
module XPathGrammar {

  import opened Common
  import opened XPathSyntax

  function Precedence(op: BinaryOp): nat {
    match op
    case OpOr => 1
    case OpAnd => 2
    case OpEqual | OpNotEqual => 3
    case OpLess | OpGreater | OpLessEqual | OpGreaterEqual => 4
    case OpAdd | OpSubtract => 5
    case OpMultiply | OpDivide | OpMod => 6
    case OpUnion => 7
  }

  /** What can stand where an operand is due, apart from a minus. */
  predicate IsOperand(t: Token) {
    t.Operand? || (t.Operator? && t.op in {OpOr, OpAnd, OpDivide, OpMod, OpMultiply})
  }

  predicate IsNodes(t: Token) {
    IsOperand(t) && (t.Operand? ==> t.nodes)
  }

  predicate IsNodeSet(e: Ast) {
    match e
    case Leaf(t) => IsNodes(t)
    case Negation(_) => false
    case Binary(op, _, _) => op == OpUnion
  }

  function Flat(e: Ast): (r: seq<Token>)
    ensures r != []
  {
    match e
    case Leaf(t) => [t]
    case Negation(a) => [Operator(OpSubtract)] + Flat(a)
    case Binary(op, l, r) => Flat(l) + [Operator(op)] + Flat(r)
  }

  /** How tightly the root of a tree binds: a negation less than a union, but more than a multiplication. */
  function Level(e: Ast): nat {
    match e
    case Leaf(_) => 15
    case Negation(_) => 13
    case Binary(op, _, _) => 2 * Precedence(op)
  }

  /** The trees of the grammar: operators of one level associate to the left, and a union joins node sets. */
  predicate Valid(e: Ast) {
    match e
    case Leaf(t) => IsOperand(t)
    case Negation(a) => Valid(a) && Level(a) >= 13
    case Binary(op, l, r) =>
      Valid(l) && Valid(r) && Level(l) >= 2 * Precedence(op) && Level(r) > 2 * Precedence(op) &&
      (op == OpUnion ==> IsNodeSet(l) && IsNodeSet(r))
  }

  /** From position i on the tokens alternate as they should; a union stands between two node sets. */
  predicate Grammatical(ts: seq<Token>, i: nat, operandDue: bool)
    decreases |ts| - i
  {
    if operandDue then
      i < |ts| &&
      if IsOperand(ts[i]) then Grammatical(ts, i + 1, false)
      else ts[i] == Operator(OpSubtract) && Grammatical(ts, i + 1, true)
    else
      i == |ts| ||
      (i < |ts| && ts[i].Operator? && Grammatical(ts, i + 1, true) && (ts[i].op == OpUnion ==> BetweenNodes(ts, i)))
  }

  predicate BetweenNodes(ts: seq<Token>, i: nat) {
    0 < i < |ts| - 1 && IsNodes(ts[i - 1]) && IsNodes(ts[i + 1])
  }

  /** The number of tokens of a tree. */
  function Size(e: Ast): (n: nat)
    ensures n > 0
  {
    match e
    case Leaf(_) => 1
    case Negation(a) => 1 + Size(a)
    case Binary(_, l, r) => Size(l) + 1 + Size(r)
  }

  /** The tokens of the tree stand at position i. */
  predicate Stands(e: Ast, ts: seq<Token>, i: nat) {
    i + Size(e) <= |ts| &&
    match e
    case Leaf(t) => ts[i] == t
    case Negation(a) => ts[i] == Operator(OpSubtract) && Stands(a, ts, i + 1)
    case Binary(op, l, r) =>
      Stands(l, ts, i) && ts[i + Size(l)] == Operator(op) && Stands(r, ts, i + Size(l) + 1)
  }

  lemma {:induction false} FlatSize(e: Ast)
    ensures |Flat(e)| == Size(e)
  {
    match e
    case Leaf(_) =>
    case Negation(a) => FlatSize(a);
    case Binary(_, l, r) => FlatSize(l); FlatSize(r);
  }

  lemma {:induction false} StandsIsFlat(e: Ast, ts: seq<Token>, i: nat)
    ensures |Flat(e)| == Size(e)
    ensures i + Size(e) <= |ts| ==> (Stands(e, ts, i) <==> ts[i..i + Size(e)] == Flat(e))
    decreases e
  {
    hide Stands, Flat, Size;
    FlatSize(e);
    SizeOf(e);
    match e
    case Leaf(t) => LeafStands(t, ts, i);
    case Negation(a) =>
      StandsIsFlat(a, ts, i + 1);
      if i + Size(e) <= |ts| {
        NegationStands(a, ts, i);
      }
    case Binary(op, l, r) =>
      StandsIsFlat(l, ts, i);
      StandsIsFlat(r, ts, i + Size(l) + 1);
      if i + Size(e) <= |ts| {
        BinaryStands(op, l, r, ts, i);
      }
  }

  lemma SizeOf(e: Ast)
    ensures e.Leaf? ==> Size(e) == 1
    ensures e.Negation? ==> Size(e) == 1 + Size(e.arg)
    ensures e.Binary? ==> Size(e) == Size(e.left) + 1 + Size(e.right)
  {
  }

  lemma LeafStands(t: Token, ts: seq<Token>, i: nat)
    ensures i + 1 <= |ts| ==> (Stands(Leaf(t), ts, i) <==> ts[i..i + 1] == Flat(Leaf(t)))
  {
  }

  lemma NegationStands(a: Ast, ts: seq<Token>, i: nat)
    requires |Flat(a)| == Size(a) && i + 1 + Size(a) <= |ts|
    requires Stands(a, ts, i + 1) <==> ts[i + 1..i + 1 + Size(a)] == Flat(a)
    ensures
      var e := Negation(a);
      Stands(e, ts, i) <==> ts[i..i + Size(e)] == Flat(e)
  {
    var j, none: seq<Token> := i + 1 + Size(a), [];
    var b, d := ts[i + 1..j], Flat(a);
    ThreeSlices(ts, i, i, j);
    assert Flat(Negation(a)) == [Operator(OpSubtract)] + d;
    assert Stands(Negation(a), ts, i) <==> ts[i] == Operator(OpSubtract) && Stands(a, ts, i + 1);
    hide Flat, Stands, Size;
    assert ts[i..i] == none && none + [Operator(OpSubtract)] == [Operator(OpSubtract)];
    PiecesEqual(none, ts[i], b, none, Operator(OpSubtract), d);
  }

  lemma ThreeSlices(ts: seq<Token>, i: nat, m: nat, j: nat)
    requires i <= m < j <= |ts|
    ensures ts[i..j] == ts[i..m] + [ts[m]] + ts[m + 1..j]
  {
  }

  lemma BinaryStands(op: BinaryOp, l: Ast, r: Ast, ts: seq<Token>, i: nat)
    requires |Flat(l)| == Size(l) && |Flat(r)| == Size(r) && i + Size(l) + 1 + Size(r) <= |ts|
    requires Stands(l, ts, i) <==> ts[i..i + Size(l)] == Flat(l)
    requires
      var m, j := i + Size(l), i + Size(l) + 1 + Size(r);
      Stands(r, ts, m + 1) <==> ts[m + 1..j] == Flat(r)
    ensures
      var e := Binary(op, l, r);
      Stands(e, ts, i) <==> ts[i..i + Size(e)] == Flat(e)
  {
    var m, j := i + Size(l), i + Size(l) + 1 + Size(r);
    var a, b, c, d := ts[i..m], ts[m + 1..j], Flat(l), Flat(r);
    ThreeSlices(ts, i, m, j);
    assert Flat(Binary(op, l, r)) == c + [Operator(op)] + d;
    assert Stands(Binary(op, l, r), ts, i) <==> Stands(l, ts, i) && ts[m] == Operator(op) && Stands(r, ts, m + 1);
    hide Flat, Stands, Size;
    PiecesEqual(a, ts[m], b, c, Operator(op), d);
  }

  lemma PiecesEqual(a: seq<Token>, x: Token, b: seq<Token>, c: seq<Token>, y: Token, d: seq<Token>)
    requires |a| == |c| && |b| == |d|
    ensures a + [x] + b == c + [y] + d <==> a == c && x == y && b == d
  {
    var p, q := a + [x] + b, c + [y] + d;
    assert p[..|a|] == a && p[|a|] == x && p[|a| + 1..] == b;
    assert q[..|a|] == c && q[|a|] == y && q[|a| + 1..] == d;
  }

  // Every tree of the grammar stands on grammatical tokens

  lemma {:induction false} UnionChain(e: Ast, ts: seq<Token>, i: nat)
    requires Valid(e) && Stands(e, ts, i) && Level(e) >= 14
    ensures IsNodes(ts[i + Size(e) - 1]) == IsNodeSet(e) && IsOperand(ts[i])
    decreases e
  {
    if e.Binary? {
      assert e.op == OpUnion;
      UnionChain(e.left, ts, i);
      UnionChain(e.right, ts, i + Size(e.left) + 1);
    }
  }

  /** Reading a tree where an operand is due leads to where an operator is due. */
  lemma {:induction false} TreeReads(e: Ast, ts: seq<Token>, i: nat)
    requires Valid(e) && Stands(e, ts, i) && Grammatical(ts, i + Size(e), false)
    ensures Grammatical(ts, i, true)
    decreases e
  {
    match e
    case Leaf(t) =>
    case Negation(a) => TreeReads(a, ts, i + 1);
    case Binary(op, l, r) =>
      var m := i + Size(l);
      TreeReads(r, ts, m + 1);
      if op == OpUnion {
        UnionChain(l, ts, i);
        UnionChain(r, ts, m + 1);
      }
      TreeReads(l, ts, i);
  }

  lemma ValidIsGrammatical(e: Ast, ts: seq<Token>)
    requires Valid(e) && Flat(e) == ts
    ensures Grammatical(ts, 0, true)
  {
    StandsIsFlat(e, ts, 0);
    assert ts[0..|ts|] == ts;
    TreeReads(e, ts, 0);
  }

  // A sequence of tokens has at most one tree

  /** Whether an operator is due behind the first i tokens. */
  predicate OperatorDue(ts: seq<Token>, i: nat)
    requires i <= |ts|
  {
    i > 0 && !OperatorDue(ts, i - 1) && IsOperand(ts[i - 1])
  }

  /**
   Behind a tree an operator is due; where one is due inside it, there is one that binds at least as tightly as the
   tree.
   */
  lemma {:induction false} TreeRoles(e: Ast, ts: seq<Token>, i: nat)
    requires Valid(e) && Stands(e, ts, i) && !OperatorDue(ts, i)
    ensures OperatorDue(ts, i + Size(e))
    ensures forall k :: i <= k < i + Size(e) && OperatorDue(ts, k) ==>
      ts[k].Operator? && 2 * Precedence(ts[k].op) >= Level(e)
    decreases e
  {
    hide Precedence, IsOperand, OperatorDue;
    match e
    case Leaf(t) =>
      LeafRole(ts, i);
    case Negation(a) =>
      MinusRole(ts, i);
      TreeRoles(a, ts, i + 1);
    case Binary(op, l, r) =>
      TreeRoles(l, ts, i);
      OperatorRole(ts, i + Size(l));
      TreeRoles(r, ts, i + Size(l) + 1);
  }

  lemma OperatorRole(ts: seq<Token>, i: nat)
    requires i < |ts| && OperatorDue(ts, i)
    ensures !OperatorDue(ts, i + 1)
  {
  }

  lemma LeafRole(ts: seq<Token>, i: nat)
    requires i < |ts| && IsOperand(ts[i]) && !OperatorDue(ts, i)
    ensures OperatorDue(ts, i + 1)
  {
  }

  lemma MinusRole(ts: seq<Token>, i: nat)
    requires i < |ts| && ts[i] == Operator(OpSubtract)
    ensures !OperatorDue(ts, i + 1)
  {
  }

  /**
   Two trees on the same tokens split at the same operator: otherwise the operator of the one would be inside the left
   part of the other, and so bind at least as tightly, and the other's inside the right part of the one, and so bind
   more tightly.
   */
  lemma SameSplit(e: Ast, g: Ast, ts: seq<Token>, i: nat)
    requires Valid(e) && Valid(g) && Stands(e, ts, i) && Stands(g, ts, i) && Size(e) == Size(g) && !OperatorDue(ts, i)
    requires e.Binary? && g.Binary?
    ensures Size(e.left) == Size(g.left)
  {
    hide Precedence;
    NotEarlier(e, g, ts, i);
    NotEarlier(g, e, ts, i);
  }

  lemma NotEarlier(e: Ast, g: Ast, ts: seq<Token>, i: nat)
    requires Valid(e) && Valid(g) && Stands(e, ts, i) && Stands(g, ts, i) && Size(e) == Size(g) && !OperatorDue(ts, i)
    requires e.Binary? && g.Binary?
    ensures Size(e.left) >= Size(g.left)
  {
    hide Precedence, IsOperand;
    var m := i + Size(e.left);
    TreeRoles(e.left, ts, i);
    TreeRoles(g.left, ts, i);
    assert !OperatorDue(ts, m + 1);
    TreeRoles(e.right, ts, m + 1);
    hide Stands, OperatorDue, Size;
  }

  /** What the tokens of a tree tell about its root. */
  lemma RootRole(e: Ast, ts: seq<Token>, i: nat)
    requires Valid(e) && Stands(e, ts, i) && !OperatorDue(ts, i)
    ensures e.Leaf? <==> Size(e) == 1
    ensures e.Negation? ==> !IsOperand(ts[i]) && forall k :: i <= k < i + Size(e) && OperatorDue(ts, k) ==>
      ts[k].Operator? && 2 * Precedence(ts[k].op) >= 13
    ensures e.Binary? ==> OperatorDue(ts, i + Size(e.left)) && ts[i + Size(e.left)] == Operator(e.op)
    ensures e.Binary? && Level(e) >= 13 ==> IsOperand(ts[i])
  {
    TreeRoles(e, ts, i);
    if e.Binary? {
      TreeRoles(e.left, ts, i);
      if Level(e) >= 13 {
        UnionChain(e, ts, i);
      }
    }
  }

  /** A tree of the grammar is determined by its tokens. */
  lemma {:induction false} SameTree(e: Ast, g: Ast, ts: seq<Token>, i: nat)
    requires Valid(e) && Valid(g) && Stands(e, ts, i) && Stands(g, ts, i) && Size(e) == Size(g) && !OperatorDue(ts, i)
    ensures e == g
    decreases e
  {
    RootRole(e, ts, i);
    RootRole(g, ts, i);
    if e.Binary? && g.Binary? {
      SameSplit(e, g, ts, i);
      TreeRoles(e.left, ts, i);
      SameTree(e.left, g.left, ts, i);
      SameTree(e.right, g.right, ts, i + Size(e.left) + 1);
    } else if e.Negation? && g.Negation? {
      SameTree(e.arg, g.arg, ts, i + 1);
    }
  }

  lemma UniqueTree(e: Ast, g: Ast, ts: seq<Token>)
    requires Valid(e) && Valid(g) && Flat(e) == Flat(g) == ts
    ensures e == g
  {
    StandsIsFlat(e, ts, 0);
    StandsIsFlat(g, ts, 0);
    assert ts[0..|ts|] == ts;
    SameTree(e, g, ts, 0);
  }

  // The parser

  /** xpath_parser, reading tokens instead of characters. */
  class Parser {
    const tokens: seq<Token>
    var pos: nat

    constructor (tokens: seq<Token>)
      ensures this.tokens == tokens && pos == 0
    {
      this.tokens, pos := tokens, 0;
    }

    /** The lexer's current token, if any is left. */
    function Current(): (t: Token)
      reads this
      ensures pos < |tokens| ==> t == tokens[pos]
      ensures pos >= |tokens| ==> t == OtherToken
    {
      if pos < |tokens| then tokens[pos] else OtherToken
    }

    /**
     What the parser has read of a tree that began at position b, and whether what is left can still be grammatical.
     */
    ghost predicate Read(e: Ast, b: nat)
      reads this
    {
      && Valid(e) && Stands(e, tokens, b) && pos == b + Size(e)
      && (Grammatical(tokens, 0, true) ==> Grammatical(tokens, pos, false))
    }

    /** The next token is not an operator that binds more tightly than e. */
    ghost predicate NextFits(e: Ast)
      reads this
    {
      Current().Operator? ==> 2 * Precedence(Current().op) <= Level(e)
    }

    /** parse_path_or_unary_expression, where a path is one token. */
    method ParseOperand() returns (e: Option<Ast>)
      requires pos <= |tokens| && (Grammatical(tokens, 0, true) ==> Grammatical(tokens, pos, true))
      modifies this
      ensures e.Some? ==> old(pos) < pos && Read(e.value, old(pos)) && Level(e.value) >= 13 && NextFits(e.value)
      ensures e.Some? ==> !e.value.Binary?
      ensures e.None? ==> !Grammatical(tokens, 0, true)
      decreases |tokens| - pos, 0
    {
      var t := Current();
      if IsOperand(t) {
        pos := pos + 1;
        return Some(Leaf(t));
      } else if t == Operator(OpSubtract) {
        pos := pos + 1;
        var n := ParseExpression(7);
        if n.None? {
          return None;
        }
        return Some(Negation(n.value));
      } else {
        return None;
      }
    }

    /** parse_expression. */
    method ParseExpression(limit: nat) returns (e: Option<Ast>)
      requires pos <= |tokens| && limit <= 7 && (Grammatical(tokens, 0, true) ==> Grammatical(tokens, pos, true))
      modifies this
      ensures e.Some? ==> old(pos) < pos && Read(e.value, old(pos)) && Level(e.value) >= (if limit == 7 then 13 else 0)
      ensures e.Some? && Current().Operator? ==> Precedence(Current().op) < limit
      ensures e.None? ==> !Grammatical(tokens, 0, true)
      decreases |tokens| - pos, 1
    {
      ghost var b := pos;
      var n := ParseOperand();
      if n.None? {
        return None;
      }
      e := ParseExpressionRec(n.value, limit, b);
    }

    /** parse_expression_rec: take in operators that bind at least as tightly as the limit. */
    method ParseExpressionRec(first: Ast, limit: nat, ghost b: nat) returns (e: Option<Ast>)
      requires pos <= |tokens| && limit <= 7 && Read(first, b) && NextFits(first)
      modifies this
      ensures e.Some? ==> old(pos) <= pos && Read(e.value, b) && NextFits(e.value)
      ensures e.Some? ==> e.value == first || (e.value.Binary? && Precedence(e.value.op) >= limit)
      ensures e.Some? && Current().Operator? ==> Precedence(Current().op) < limit
      ensures old(Current()).Operator? && Precedence(old(Current()).op) >= limit && e.Some? ==>
        e.value.Binary? && pos > old(pos)
      ensures e.None? ==> !Grammatical(tokens, 0, true)
      decreases |tokens| - pos, 0
    {
      hide Grammatical, BetweenNodes, IsOperand, Precedence;
      var lhs := first;
      while Current().Operator? && Precedence(Current().op) >= limit
        invariant old(pos) <= pos <= |tokens| && Read(lhs, b) && NextFits(lhs)
        invariant if pos == old(pos) then lhs == first else lhs.Binary? && Precedence(lhs.op) >= limit
        decreases |tokens| - pos
      {
        var op := Current().op;
        ghost var at := pos;
        GrammaticalAt(tokens, at);
        pos := pos + 1;
        var rhs := ParseRight(op);
        if rhs.None? {
          return None;
        }
        if op == OpUnion && (!IsNodeSet(lhs) || !IsNodeSet(rhs.value)) {
          assert Precedence(OpUnion) == 7 by {
            UnionPrecedence();
          }
          UnionFails(tokens, b, at, lhs, rhs.value);
          return None;
        }
        UnionPrecedence();
        lhs := Binary(op, lhs, rhs.value);
      }
      e := Some(lhs);
    }

    /** The right operand of an operator, with all that binds more tightly than the operator. */
    method ParseRight(op: BinaryOp) returns (e: Option<Ast>)
      requires pos <= |tokens| && (Grammatical(tokens, 0, true) ==> Grammatical(tokens, pos, true))
      modifies this
      ensures e.Some? ==> old(pos) < pos && Read(e.value, old(pos))
      ensures e.Some? ==> Level(e.value) > 2 * Precedence(op) || (op == OpUnion && e.value.Negation?)
      ensures e.Some? && Current().Operator? ==> Precedence(Current().op) <= Precedence(op)
      ensures e.None? ==> !Grammatical(tokens, 0, true)
      decreases |tokens| - pos, 2
    {
      hide Grammatical, IsOperand, Precedence;
      ghost var b := pos;
      UnionPrecedence();
      e := ParseOperand();
      if e.None? {
        return;
      }
      PrecedenceBound(op);
      var rhs := e.value;
      while Current().Operator? && Precedence(Current().op) > Precedence(op)
        invariant old(pos) < pos <= |tokens| && Read(rhs, b) && NextFits(rhs)
        invariant Level(rhs) > 2 * Precedence(op) || (op == OpUnion && rhs.Negation?)
        decreases |tokens| - pos
      {
        PrecedenceBound(Current().op);
        e := ParseExpressionRec(rhs, Precedence(Current().op), b);
        if e.None? {
          return;
        }
        rhs := e.value;
      }
      e := Some(rhs);
    }
  }

  lemma PrecedenceBound(op: BinaryOp)
    ensures 1 <= Precedence(op) <= 7 && (op != OpUnion ==> Precedence(op) <= 6)
  {
  }

  lemma UnionPrecedence()
    ensures Precedence(OpUnion) == 7
  {
  }

  lemma GrammaticalAt(ts: seq<Token>, i: nat)
    ensures i < |ts| && Grammatical(ts, i, false) ==> Grammatical(ts, i + 1, true)
    ensures i < |ts| && Grammatical(ts, i, false) && ts[i] == Operator(OpUnion) ==> BetweenNodes(ts, i)
  {
  }

  /** An operand of a union that is no node set shows in the tokens beside the operator. */
  lemma UnionFails(ts: seq<Token>, b: nat, at: nat, lhs: Ast, rhs: Ast)
    requires Valid(lhs) && Stands(lhs, ts, b) && at == b + Size(lhs) && Level(lhs) >= 14
    requires Valid(rhs) && Stands(rhs, ts, at + 1) && (Level(rhs) > 14 || rhs.Negation?)
    requires !IsNodeSet(lhs) || !IsNodeSet(rhs)
    ensures !BetweenNodes(ts, at)
  {
    UnionChain(lhs, ts, b);
  }

  // The levels are those of the grammar

  /** The level of the trees that a nonterminal derives, at least. */
  function LevelOf(nt: Nonterminal): nat {
    match nt
    case PathExpr => 15
    case UnionExpr => 14
    case UnaryExpr => 13
    case MultiplicativeExpr => 12
    case AdditiveExpr => 10
    case RelationalExpr => 8
    case EqualityExpr => 6
    case AndExpr => 4
    case OrExpr => 2
  }

  ghost predicate Yields(e: Ast, ts: seq<Token>, level: nat) {
    Valid(e) && Level(e) >= level && Flat(e) == ts
  }

  lemma LevelsFit(nt: Nonterminal, op: BinaryOp)
    ensures op in Operators(nt) ==> LevelOf(nt) == 2 * Precedence(op)
    ensures op !in Operators(nt) && nt != PathExpr ==>
      (2 * Precedence(op) >= LevelOf(nt) <==> 2 * Precedence(op) >= LevelOf(Operands(nt)))
    ensures Operators(nt) != {} ==> LevelOf(nt) < LevelOf(Operands(nt)) <= LevelOf(nt) + 2
    ensures op in Operators(nt) ==> (op == OpUnion <==> nt == UnionExpr)
  {
  }

  /** No tree has a level strictly between that of an operator and that of its right operands. */
  lemma NextLevel(nt: Nonterminal, e: Ast)
    requires nt != PathExpr
    ensures Level(e) > LevelOf(nt) ==> Level(e) >= LevelOf(Operands(nt))
    ensures LevelOf(Operands(nt)) > LevelOf(nt)
  {
  }

  /** Every nonterminal derives exactly the trees from its level on. */
  lemma {:induction false} DerivedIs(nt: Nonterminal, e: Ast, ts: seq<Token>)
    ensures Derives(nt, e, ts) <==> Yields(e, ts, LevelOf(nt))
    decreases e, Depth(nt)
  {
    hide Yields, LevelOf, Operators, Operands, IsOperand;
    if nt == PathExpr {
      PathIs(e, ts);
    } else {
      NextDepth(nt);
      DerivedIs(Operands(nt), e, ts);
      if nt == UnaryExpr && e.Negation? {
        if ts != [] {
          DerivedIs(nt, e.arg, ts[1..]);
        }
        NegationIs(e, ts);
      } else if e.Binary? && e.op in Operators(nt) {
        forall k | 0 <= k < |ts|
          ensures Derives(nt, e.left, ts[..k]) && Derives(Operands(nt), e.right, ts[k + 1..]) <==>
                  Yields(e.left, ts[..k], LevelOf(nt)) && Yields(e.right, ts[k + 1..], LevelOf(Operands(nt)))
        {
          DerivedIs(nt, e.left, ts[..k]);
          DerivedIs(Operands(nt), e.right, ts[k + 1..]);
        }
        BinaryIs(nt, e, ts);
      } else {
        OtherwiseIs(nt, e, ts);
      }
    }
  }

  lemma NextDepth(nt: Nonterminal)
    requires nt != PathExpr
    ensures Depth(Operands(nt)) < Depth(nt)
  {
  }

  lemma PathIs(e: Ast, ts: seq<Token>)
    ensures Derives(PathExpr, e, ts) <==> Yields(e, ts, LevelOf(PathExpr))
  {
  }

  lemma NegationIs(e: Ast, ts: seq<Token>)
    requires e.Negation?
    ensures Yields(e, ts, LevelOf(UnaryExpr)) <==>
      ts != [] && ts[0] == Operator(OpSubtract) && Yields(e.arg, ts[1..], LevelOf(UnaryExpr))
    ensures !Yields(e, ts, LevelOf(Operands(UnaryExpr)))
  {
    var minus := [Operator(OpSubtract)];
    assert (minus + Flat(e.arg))[1..] == Flat(e.arg);
    assert ts != [] ==> ts == [ts[0]] + ts[1..];
  }

  lemma OtherwiseIs(nt: Nonterminal, e: Ast, ts: seq<Token>)
    requires nt != PathExpr && !(nt == UnaryExpr && e.Negation?) && !(e.Binary? && e.op in Operators(nt))
    ensures Yields(e, ts, LevelOf(nt)) <==> Yields(e, ts, LevelOf(Operands(nt)))
  {
    hide Valid, Flat;
    if e.Binary? {
      LevelsFit(nt, e.op);
    }
  }

  lemma BinaryIs(nt: Nonterminal, e: Ast, ts: seq<Token>)
    requires e.Binary? && e.op in Operators(nt)
    ensures !Yields(e, ts, LevelOf(Operands(nt)))
    ensures Yields(e, ts, LevelOf(nt)) <==>
      (nt == UnionExpr ==> GivesNodes(e.left) && GivesNodes(e.right)) &&
      exists k ::
        0 <= k < |ts| && ts[k] == Operator(e.op) && Yields(e.left, ts[..k], LevelOf(nt)) &&
        Yields(e.right, ts[k + 1..], LevelOf(Operands(nt)))
  {
    hide Precedence, IsOperand, Operators, LevelOf;
    LevelsFit(nt, e.op);
    NextLevel(nt, e.right);
    NodesAre(e.left);
    NodesAre(e.right);
    var l, r, op := Flat(e.left), Flat(e.right), [Operator(e.op)];
    var k := |l|;
    if Yields(e, ts, LevelOf(nt)) {
      assert ts == l + op + r;
      assert ts[..k] == l && ts[k] == Operator(e.op) && ts[k + 1..] == r;
    }
    forall k | 0 <= k < |ts| && ts[k] == Operator(e.op)
      ensures ts == ts[..k] + op + ts[k + 1..]
    {
    }
  }

  lemma NodesAre(e: Ast)
    ensures Valid(e) ==> (IsNodeSet(e) <==> GivesNodes(e))
  {
  }

  lemma EveryTree(e: Ast, ts: seq<Token>)
    ensures Derives(OrExpr, e, ts) <==> Valid(e) && Flat(e) == ts
  {
    DerivedIs(OrExpr, e, ts);
    hide Valid, Flat, Derives;
  }

  /** The grammar is unambiguous. */
  lemma OneDerivation(e: Ast, g: Ast, ts: seq<Token>)
    requires Derives(OrExpr, e, ts) && Derives(OrExpr, g, ts)
    ensures e == g
  {
    EveryTree(e, ts);
    EveryTree(g, ts);
    UniqueTree(e, g, ts);
  }

  /** xpath_parser::parse: the tree of the derivation of the tokens, if there is one. */
  method Parse(tokens: seq<Token>) returns (e: Option<Ast>)
    ensures e.Some? ==> Derives(OrExpr, e.value, tokens)
    ensures forall g :: Derives(OrExpr, g, tokens) ==> e == Some(g)
  {
    var parser := new Parser(tokens);
    e := parser.ParseExpression(0);
    if e.Some? && parser.pos < |tokens| {
      // unparsed tokens are left
      OtherLeft(tokens, parser.pos);
      e := None;
    }
    if e.Some? {
      StandsIsFlat(e.value, tokens, 0);
      assert tokens[0..|tokens|] == tokens;
      EveryTree(e.value, tokens);
    }
    forall g | Derives(OrExpr, g, tokens)
      ensures e == Some(g)
    {
      EveryTree(g, tokens);
      ValidIsGrammatical(g, tokens);
      UniqueTree(e.value, g, tokens);
    }
  }

  lemma OtherLeft(ts: seq<Token>, i: nat)
    ensures i < |ts| && !ts[i].Operator? ==> !Grammatical(ts, i, false)
  {
  }
}
