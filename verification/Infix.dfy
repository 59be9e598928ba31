/** Binary operators by precedence climbing. Operands are what unary() parses and pushes; the operations are issued in
    postfix order on the value stack. */
module Infix {

  datatype Op = Lor | Land | BitOr | BitXor | BitAnd | Eq | Ne | Lt | Ge | Le | Gt | Shl | Sar | Add | Sub | Mul | Div | Mod

  datatype Token = Operand(id: nat) | Operator(op: Op) | Other

  function OpPrecedence(op: Op): (p: nat)
    ensures 1 <= p <= 10
  {
    match op
    case Lor => 1
    case Land => 2
    case BitOr => 3
    case BitXor => 4
    case BitAnd => 5
    case Eq | Ne => 6
    case Lt | Ge | Le | Gt => 7
    case Shl | Sar => 8
    case Add | Sub => 9
    case Mul | Div | Mod => 10
  }

  /** 0 for what is no binary operator. */
  function Precedence(t: Token): (p: nat)
    ensures p <= 10
  {
    if t.Operator? then OpPrecedence(t.op) else 0
  }

  // ---------------------------------------------------------------- expression trees

  datatype Tree = Leaf(id: nat) | Node(op: Op, left: Tree, right: Tree)

  /** The expression as it is written. */
  function Yield(t: Tree): (s: seq<Token>)
    ensures |s| > 0
  {
    match t
    case Leaf(id) => [Operand(id)]
    case Node(op, l, r) => Yield(l) + [Operator(op)] + Yield(r)
  }

  /** The order of the operations: operands first. */
  function Postfix(t: Tree): (s: seq<Token>) {
    match t
    case Leaf(id) => [Operand(id)]
    case Node(op, l, r) => Postfix(l) + Postfix(r) + [Operator(op)]
  }

  function RootPrecedence(t: Tree): nat { if t.Leaf? then 11 else OpPrecedence(t.op) }

  /** Left operands bind at least as tightly as the operator, right operands strictly tighter. */
  predicate Proper(t: Tree) {
    t.Leaf?
    || (Proper(t.left) && Proper(t.right)
        && RootPrecedence(t.left) >= OpPrecedence(t.op) && RootPrecedence(t.right) > OpPrecedence(t.op))
  }

  // ---------------------------------------------------------------- the grammar of C99
  // One predicate for each of the nonterminals of sections 6.5.5 to 6.5.14: the trees that its productions derive, down
  // to cast-expressions, which are the operands here.

  /** multiplicative-expression: cast-expression, or one of these, * / or %, and a cast-expression */
  predicate Multiplicative(t: Tree) {
    t.Leaf? || (t.op in {Mul, Div, Mod} && Multiplicative(t.left) && t.right.Leaf?)
  }

  predicate Additive(t: Tree) {
    Multiplicative(t) || (t.Node? && t.op in {Add, Sub} && Additive(t.left) && Multiplicative(t.right))
  }

  predicate Shift(t: Tree) {
    Additive(t) || (t.Node? && t.op in {Shl, Sar} && Shift(t.left) && Additive(t.right))
  }

  predicate Relational(t: Tree) {
    Shift(t) || (t.Node? && t.op in {Lt, Gt, Le, Ge} && Relational(t.left) && Shift(t.right))
  }

  predicate Equality(t: Tree) {
    Relational(t) || (t.Node? && t.op in {Eq, Ne} && Equality(t.left) && Relational(t.right))
  }

  predicate And(t: Tree) {
    Equality(t) || (t.Node? && t.op == BitAnd && And(t.left) && Equality(t.right))
  }

  predicate ExclusiveOr(t: Tree) {
    And(t) || (t.Node? && t.op == BitXor && ExclusiveOr(t.left) && And(t.right))
  }

  predicate InclusiveOr(t: Tree) {
    ExclusiveOr(t) || (t.Node? && t.op == BitOr && InclusiveOr(t.left) && ExclusiveOr(t.right))
  }

  predicate LogicalAnd(t: Tree) {
    InclusiveOr(t) || (t.Node? && t.op == Land && LogicalAnd(t.left) && InclusiveOr(t.right))
  }

  predicate LogicalOr(t: Tree) {
    LogicalAnd(t) || (t.Node? && t.op == Lor && LogicalOr(t.left) && LogicalAnd(t.right))
  }

  /** Each nonterminal derives exactly the proper trees with a root of its level or above: the table of precedences is the
      grammar's. */
  lemma {:induction false} GrammarIsProper(t: Tree)
    ensures Multiplicative(t) <==> Proper(t) && RootPrecedence(t) >= 10
    ensures Additive(t) <==> Proper(t) && RootPrecedence(t) >= 9
    ensures Shift(t) <==> Proper(t) && RootPrecedence(t) >= 8
    ensures Relational(t) <==> Proper(t) && RootPrecedence(t) >= 7
    ensures Equality(t) <==> Proper(t) && RootPrecedence(t) >= 6
    ensures And(t) <==> Proper(t) && RootPrecedence(t) >= 5
    ensures ExclusiveOr(t) <==> Proper(t) && RootPrecedence(t) >= 4
    ensures InclusiveOr(t) <==> Proper(t) && RootPrecedence(t) >= 3
    ensures LogicalAnd(t) <==> Proper(t) && RootPrecedence(t) >= 2
    ensures LogicalOr(t) <==> Proper(t)
  {
    if t.Node? {
      GrammarIsProper(t.left);
      GrammarIsProper(t.right);
    }
  }

  /** One multiplication, division or remainder and one sum or difference. */
  lemma ProductsBindTighter(f: Op, g: Op, a: nat, b: nat, c: nat)
    requires f in {Mul, Div, Mod} && g in {Add, Sub}
    ensures LogicalOr(Node(g, Leaf(a), Node(f, Leaf(b), Leaf(c)))) && !LogicalOr(Node(f, Node(g, Leaf(a), Leaf(b)), Leaf(c)))
  {
    assert Proper(Leaf(a)) && Proper(Leaf(b)) && Proper(Leaf(c));
    assert Proper(Node(f, Leaf(b), Leaf(c)));
    GrammarIsProper(Node(g, Leaf(a), Node(f, Leaf(b), Leaf(c))));
    GrammarIsProper(Node(f, Node(g, Leaf(a), Leaf(b)), Leaf(c)));
  }

  lemma YieldParts(t: Tree)
    requires t.Node?
    ensures var i := |Yield(t.left)|;
            |Yield(t)| == i + 1 + |Yield(t.right)| && Yield(t)[..i] == Yield(t.left)
            && Yield(t)[i] == Operator(t.op) && Yield(t)[i + 1..] == Yield(t.right)
  {
  }

  lemma {:induction false} OperatorsBindTighter(t: Tree, i: nat)
    requires Proper(t) && i < |Yield(t)| && Yield(t)[i].Operator?
    ensures OpPrecedence(Yield(t)[i].op) >= RootPrecedence(t)
  {
    if t.Node? {
      var at := |Yield(t.left)|;
      if i < at {
        OperatorsBindTighter(t.left, i);
      } else if i > at {
        assert Yield(t)[i] == Yield(t.right)[i - at - 1];
        OperatorsBindTighter(t.right, i - at - 1);
      }
    }
  }

  /** The root stands left of no operator that binds as loosely: its place in the text is determined. */
  lemma RootsCoincide(t: Tree, u: Tree)
    requires t.Node? && u.Node? && Proper(t) && Proper(u) && Yield(t) == Yield(u)
    ensures |Yield(t.left)| >= |Yield(u.left)|
  {
    hide Yield;
    var i, j := |Yield(t.left)|, |Yield(u.left)|;
    if i < j {
      YieldParts(t);
      YieldParts(u);
      assert Yield(u.left)[i] == Yield(u)[..j][i] == Operator(t.op);
      OperatorsBindTighter(u.left, i);
      assert Yield(t.right)[j - i - 1] == Yield(t)[i + 1..][j - i - 1] == Operator(u.op);
      OperatorsBindTighter(t.right, j - i - 1);
    }
  }

  lemma OneOperand(t: Tree)
    ensures |Yield(t)| == 1 <==> t.Leaf?
  {
  }

  predicate Even(i: nat) { i % 2 == 0 }

  /** Operands and operators in turn. */
  predicate Alternating(s: seq<Token>) {
    forall i :: 0 <= i < |s| ==> if Even(i) then s[i].Operand? else s[i].Operator?
  }

  lemma AlternatingJoin(a: seq<Token>, op: Op, b: seq<Token>)
    requires Alternating(a) && Alternating(b) && !Even(|a|)
    ensures Alternating(a + [Operator(op)] + b)
  {
    hide Even;
    var s := a + [Operator(op)] + b;
    forall i | 0 <= i < |s|
      ensures if Even(i) then s[i].Operand? else s[i].Operator?
    {
      if i > |a| {
        ParityAdds(|a|, i - |a| - 1);
        assert s[i] == b[i - |a| - 1];
      }
    }
  }

  lemma ParityAdds(a: nat, b: nat)
    requires !Even(a)
    ensures Even(a + 1 + b) == Even(b) && Even(a + 1)
  {
  }

  lemma {:induction false} YieldAlternates(t: Tree)
    ensures Alternating(Yield(t)) && !Even(|Yield(t)|)
  {
    if t.Node? {
      YieldAlternates(t.left);
      YieldAlternates(t.right);
      ParityAdds(|Yield(t.left)|, |Yield(t.right)|);
      AlternatingJoin(Yield(t.left), t.op, Yield(t.right));
    }
  }

  /** One text has one proper tree. */
  lemma {:induction false} OneTree(t: Tree, u: Tree)
    requires Proper(t) && Proper(u) && Yield(t) == Yield(u)
    ensures t == u
  {
    if t.Node? && u.Node? {
      RootsCoincide(t, u);
      RootsCoincide(u, t);
      YieldParts(t);
      YieldParts(u);
      OneTree(t.left, u.left);
      OneTree(t.right, u.right);
    } else {
      OneOperand(t);
      OneOperand(u);
    }
  }

  // ---------------------------------------------------------------- the value stack

  /** The value of a tree, for any meaning of the operators and operands. */
  function Value(t: Tree, f: (Op, int, int) -> int, v: nat -> int): int {
    match t
    case Leaf(id) => v(id)
    case Node(op, l, r) => f(op, Value(l, f, v), Value(r, f, v))
  }

  /** Operands are pushed, an operation replaces the two topmost values. */
  function Issue(code: seq<Token>, stack: seq<int>, f: (Op, int, int) -> int, v: nat -> int): seq<int> {
    if code == [] then stack
    else
      var s := Issue(code[..|code| - 1], stack, f, v);
      match code[|code| - 1]
      case Operand(id) => s + [v(id)]
      case Operator(op) => if |s| < 2 then s else s[..|s| - 2] + [f(op, s[|s| - 2], s[|s| - 1])]
      case Other => s
  }

  lemma {:induction false} IssueSplits(a: seq<Token>, b: seq<Token>, stack: seq<int>, f: (Op, int, int) -> int, v: nat -> int)
    ensures Issue(a + b, stack, f, v) == Issue(b, Issue(a, stack, f, v), f, v)
  {
    if b == [] {
      assert a + b == a;
    } else {
      IssueSplits(a, b[..|b| - 1], stack, f, v);
      assert (a + b)[..|a + b| - 1] == a + b[..|b| - 1];
    }
  }

  /** Issued in postfix order, the operations leave the tree's value on top of the stack. */
  lemma {:induction false} PostfixComputes(t: Tree, stack: seq<int>, f: (Op, int, int) -> int, v: nat -> int)
    ensures Issue(Postfix(t), stack, f, v) == stack + [Value(t, f, v)]
  {
    match t {
      case Leaf(id) =>
        assert Postfix(t)[..0] == [];
      case Node(op, l, r) =>
        var s1 := stack + [Value(l, f, v)];
        var s2 := s1 + [Value(r, f, v)];
        PostfixComputes(l, stack, f, v);
        PostfixComputes(r, s1, f, v);
        IssueSplits(Postfix(l), Postfix(r), stack, f, v);
        IssueSplits(Postfix(l) + Postfix(r), [Operator(op)], stack, f, v);
        OneOperation(op, s2, f, v);
        assert s2[..|s2| - 2] == stack;
    }
  }

  lemma OneOperation(op: Op, s: seq<int>, f: (Op, int, int) -> int, v: nat -> int)
    requires |s| >= 2
    ensures Issue([Operator(op)], s, f, v) == s[..|s| - 2] + [f(op, s[|s| - 2], s[|s| - 1])]
  {
    assert [Operator(op)][..0] == [];
  }

  lemma Associates<T>(a: seq<T>, b: seq<T>, c: seq<T>, d: seq<T>)
    ensures a + b + c + d == a + (b + c + d)
  {
  }

  // ---------------------------------------------------------------- the parser

  class Parser {
    const tokens: seq<Token>
    /** The place of the current token, tok. */
    var pos: nat
    /** The operands pushed and operations issued so far. */
    var issued: seq<Token>

    constructor (tokens: seq<Token>)
      ensures this.tokens == tokens && pos == 0 && issued == []
    {
      this.tokens := tokens;
      pos, issued := 0, [];
    }

    function Tok(): Token
      reads this
    {
      if pos < |tokens| then tokens[pos] else Other
    }

    /** Since the state (pos0, issued0) exactly the tree's text was read and exactly its operations were issued. */
    ghost predicate Parsed(pos0: nat, issued0: seq<Token>, t: Tree)
      reads this
    {
      pos0 <= pos <= |tokens| && tokens[pos0..pos] == Yield(t) && issued == issued0 + Postfix(t) && Proper(t)
    }

    /** Since pos0 operands and operators alternated, and now an operand is missing. */
    ghost predicate Stuck(pos0: nat)
      reads this
    {
      pos0 <= pos <= |tokens| && Even(pos - pos0) && Alternating(tokens[pos0..pos]) && !Tok().Operand?
    }

    /** An operand is pushed; anything else is an error. */
    method Unary() returns (ok: bool)
      modifies this
      ensures ok == old(Tok().Operand?)
      ensures ok ==> Parsed(old(pos), old(issued), Leaf(old(Tok()).id))
      ensures !ok ==> pos == old(pos) && !Tok().Operand?
    {
      match Tok() {
        case Operand(id) =>
          issued, pos := issued + [Operand(id)], pos + 1;
          return true;
        case _ => return false;
      }
    }

    /** With the tree `left` just parsed, goes on as long as operators of at least precedence `p` follow. */
    method ExprInfix(p: nat, ghost pos0: nat, ghost issued0: seq<Token>, ghost left: Tree) returns (ok: bool, ghost t: Tree)
      requires 1 <= p <= 11 && Parsed(pos0, issued0, left) && left.Leaf?
      modifies this
      ensures ok ==> Parsed(pos0, issued0, t) && pos >= old(pos) && RootPrecedence(t) >= p && Precedence(Tok()) < p
      ensures !ok ==> Stuck(pos0)
      decreases |tokens| - pos, 1
    {
      t := left;
      while Precedence(Tok()) >= p
        invariant Parsed(pos0, issued0, t) && old(pos) <= pos
        invariant RootPrecedence(t) >= p && Precedence(Tok()) <= RootPrecedence(t)
        decreases |tokens| - pos
      {
        var op := Tok().op;
        var p2 := OpPrecedence(op);
        if op in {Lor, Land} {
          ok, t := ExprLandor(op, pos0, issued0, t);
          if !ok { return; }
        } else {
          ghost var before, stack, l := pos, issued, t;
          pos := pos + 1;
          ghost var start := pos;
          ok := Unary();
          if !ok {
            StuckLater(pos0, before, l, pos);
            return;
          }
          ghost var r := Leaf(tokens[start].id);
          if Precedence(Tok()) > p2 {
            ok, r := ExprInfix(p2 + 1, start, stack, r);
            if !ok {
              StuckLater(pos0, before, l, start);
              return;
            }
          }
          issued := issued + [Operator(op)];
          t := Node(op, l, r);
          Joins(pos0, issued0, before, stack, op, l, r);
        }
      }
      ok := true;
    }

    /** The texts and operations of two trees around an operator. */
    lemma Joins(pos0: nat, issued0: seq<Token>, before: nat, stack: seq<Token>, op: Op, l: Tree, r: Tree)
      requires pos0 <= before < pos <= |tokens| && tokens[before] == Operator(op)
      requires tokens[pos0..before] == Yield(l) && tokens[before + 1..pos] == Yield(r)
      requires stack == issued0 + Postfix(l) && issued == stack + Postfix(r) + [Operator(op)]
      requires Proper(l) && Proper(r) && RootPrecedence(l) >= OpPrecedence(op) && RootPrecedence(r) > OpPrecedence(op)
      ensures Parsed(pos0, issued0, Node(op, l, r))
    {
      SplitText(pos0, before);
      var pl, pr := Postfix(l), Postfix(r);
      assert Postfix(Node(op, l, r)) == pl + pr + [Operator(op)];
      Associates(issued0, pl, pr, [Operator(op)]);
    }

    lemma SplitText(pos0: nat, before: nat)
      requires pos0 <= before < pos <= |tokens|
      ensures tokens[pos0..pos] == tokens[pos0..before] + [tokens[before]] + tokens[before + 1..pos]
    {
    }

    /** The operand is missing after the operator at `before`. */
    lemma StuckLater(pos0: nat, before: nat, l: Tree, start: nat)
      requires pos0 <= before < start == before + 1 <= pos <= |tokens| && tokens[before].Operator?
      requires tokens[pos0..before] == Yield(l)
      requires Even(pos - start) && Alternating(tokens[start..pos]) && !Tok().Operand?
      ensures Stuck(pos0)
    {
      hide Even, Yield, Alternating;
      YieldAlternates(l);
      SplitText(pos0, before);
      AlternatingJoin(tokens[pos0..before], tokens[before].op, tokens[start..pos]);
      ParityAdds(before - pos0, pos - start);
    }

    /** A chain of && or of ||. */
    method ExprLandor(op: Op, ghost pos0: nat, ghost issued0: seq<Token>, ghost left: Tree) returns (ok: bool, ghost t: Tree)
      requires op in {Lor, Land} && Parsed(pos0, issued0, left)
      requires RootPrecedence(left) >= OpPrecedence(op) && Tok() == Operator(op)
      modifies this
      ensures ok ==> Parsed(pos0, issued0, t) && pos > old(pos)
      ensures ok ==> RootPrecedence(t) == OpPrecedence(op) && Precedence(Tok()) <= OpPrecedence(op)
      ensures !ok ==> Stuck(pos0)
      decreases |tokens| - pos, 0
    {
      t := left;
      while Tok() == Operator(op)
        invariant Parsed(pos0, issued0, t) && old(pos) <= pos
        invariant RootPrecedence(t) >= OpPrecedence(op)
        invariant pos == old(pos) || (RootPrecedence(t) == OpPrecedence(op) && Precedence(Tok()) <= OpPrecedence(op))
        decreases |tokens| - pos
      {
        ghost var before, stack, l := pos, issued, t;
        pos := pos + 1;
        ghost var start := pos;
        ok := Unary();
        if !ok {
          StuckLater(pos0, before, l, pos);
          return;
        }
        ghost var r;
        ok, r := ExprInfix(OpPrecedence(op) + 1, start, stack, Leaf(tokens[start].id));
        if !ok {
          StuckLater(pos0, before, l, start);
          return;
        }
        issued := issued + [Operator(op)];
        t := Node(op, l, r);
        Joins(pos0, issued0, before, stack, op, l, r);
      }
      ok := true;
    }

    function TokAt(i: nat): Token { if i < |tokens| then tokens[i] else Other }

    /** From `start` on there are `n` tokens, operands and operators in turn, and no operator follows. */
    ghost predicate Expression(start: nat, n: nat) {
      start + n <= |tokens| && !Even(n) && Alternating(tokens[start..start + n]) && !TokAt(start + n).Operator?
    }

    /** Where an expression stands, the parser neither gets stuck nor stops elsewhere. */
    lemma ReadsTheExpression(start: nat, n: nat)
      requires Expression(start, n)
      ensures !Stuck(start)
      ensures forall t :: start <= pos <= |tokens| && tokens[start..pos] == Yield(t) && !Tok().Operator? ==> pos == start + n
    {
      var text := tokens[start..start + n];
      if start <= pos <= |tokens| && Alternating(tokens[start..pos]) {
        var m := pos - start;
        if m < n {
          assert text[m] == Tok();
        }
      }
      forall t | start <= pos <= |tokens| && tokens[start..pos] == Yield(t) && !Tok().Operator?
        ensures pos == start + n
      {
        YieldAlternates(t);
      }
    }

    /** Parses an expression of binary operators. Every expression is read in full; its operations are issued in the
        postfix order of the one tree that the C grammar gives it. */
    method ExprLor() returns (ok: bool, ghost t: Tree)
      modifies this
      ensures ok ==> Parsed(old(pos), old(issued), t) && LogicalOr(t) && Precedence(Tok()) == 0
      ensures ok ==> forall u :: LogicalOr(u) && Yield(u) == tokens[old(pos)..pos] ==> u == t
      ensures forall n :: Expression(old(pos), n) ==> ok && pos == old(pos) + n
    {
      ghost var pos0, issued0 := pos, issued;
      t := Leaf(0);
      ok := Unary();
      if ok {
        t := Leaf(tokens[pos0].id);
        ok, t := ExprInfix(1, pos0, issued0, t);
        if ok {
          GrammarIsProper(t);
          forall u | LogicalOr(u) && Yield(u) == tokens[pos0..pos]
            ensures u == t
          {
            GrammarIsProper(u);
            OneTree(u, t);
          }
        }
      }
      forall n | Expression(pos0, n)
        ensures ok && pos == pos0 + n
      {
        ReadsTheExpression(pos0, n);
      }
    }
  }
}
