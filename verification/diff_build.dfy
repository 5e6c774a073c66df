/**
  How expressions are built: `x.symbol(s)` and `symbol(s)` (src/lib.rs, src/symbol.rs)
  and the `+`/`*` operators on `Node` and `&Node` (src/ops.rs).
 */
module Build {
  import opened Values
  import opened Diff
  import DiffProps

  /** `x.symbol(s)`: a `Node` holding a `Symbol` named `s` that wraps `x`. */
  function BindSymbol(x: Expr, s: string): (e: Expr)
    ensures Names(e) == {s} + Names(x)
    ensures WellTyped(x) && !MatrixValued(x) ==> WellTyped(e) && !MatrixValued(e) && Val(e) == Val(x)
  {
    assert WellTyped(x) && !MatrixValued(x) ==> Eval(Wrap(Sym(s, x))) == Eval(x);
    Wrap(Sym(s, x))
  }

  /** `symbol(s)`: a symbol named `s` over an anonymous symbol. */
  function SymbolNamed(s: string): (e: Expr)
    ensures WellTyped(e) && !MatrixValued(e) && Names(e) == {s}
  {
    BindSymbol(Anon, s)
  }

  /** The operands the operators are implemented for: a `Node` or a reference to one. */
  predicate IsNode(e: Expr)
  {
    e.Wrap? || (e.Ref? && e.target.Wrap?)
  }

  /** `self.clone()`: cloning a `Node` or a `&Node` gives an owned `Node`. */
  function Owned(e: Expr): (n: Expr)
    requires IsNode(e)
    ensures n.Wrap?
  {
    if e.Ref? then e.target else e
  }

  /** `node + rhs` and `node * rhs`: a new `Node` holding the combinator over a clone of `node`. */
  function NodeOp(op: BinOp, lhs: Expr, rhs: Expr): (e: Expr)
    requires IsNode(lhs)
    ensures e.Wrap?
    ensures Names(e) == Names(lhs) + Names(rhs)
  {
    match op
    case Plus => Wrap(Add(Owned(lhs), rhs))
    case Times => Wrap(Mul(Owned(lhs), rhs))
  }

  /**
    A built expression evaluates to the operator applied to the operands' values, and
    its derivative for every name follows the sum or the product rule.
   */
  lemma NodeOpSemantics(op: BinOp, lhs: Expr, rhs: Expr, k: string)
    requires IsNode(lhs)
    requires WellTyped(lhs) && !MatrixValued(lhs) && WellTyped(rhs) && !MatrixValued(rhs)
    ensures WellTyped(NodeOp(op, lhs, rhs)) && !MatrixValued(NodeOp(op, lhs, rhs))
    ensures Val(NodeOp(op, lhs, rhs)) == Apply(op, Val(lhs), Val(rhs))
    ensures op == Plus ==>
      Val(Partial(NodeOp(op, lhs, rhs), k)) == Val(Partial(lhs, k)) + Val(Partial(rhs, k))
    ensures op == Times ==>
      Val(Partial(NodeOp(op, lhs, rhs), k))
      == Val(lhs) * Val(Partial(rhs, k)) + Val(rhs) * Val(Partial(lhs, k))
  {
    var l := Owned(lhs);
    assert Eval(l) == Eval(lhs);
    assert Partial(l, k) == Partial(lhs, k);
    if op == Times {
      assert Eval(NodeOp(op, lhs, rhs)) == Eval(Mul(l, rhs));
      DiffProps.ProductRuleValue(l, rhs, k);
    } else {
      assert Eval(NodeOp(op, lhs, rhs)) == Eval(Add(l, rhs));
    }
  }

  /** `symbol(s)` evaluates to 0 and has derivative 1 for `s` and 0 for every other name. */
  lemma SymbolNamedRules(s: string, k: string)
    ensures Val(SymbolNamed(s)) == 0
    ensures Val(Partial(SymbolNamed(s), s)) == 1
    ensures k != s ==> Val(Partial(SymbolNamed(s), k)) == 0
  {
    assert Partial(SymbolNamed(s), k) == Partial(Sym(s, Anon), k);
  }

  /**
    With `x = 2.symbol("x")` and `y = 3.symbol("y")`, `f = &x * &y + &x * &x` evaluates to
    10, and its derivatives for `["x", "y"]` evaluate to 7 and 2.
   */
  lemma ProductRuleExample()
    ensures var x := BindSymbol(Const(2), "x");
            var y := BindSymbol(Const(3), "y");
            var f := NodeOp(Plus, Ref(NodeOp(Times, Ref(x), Ref(y))), NodeOp(Times, Ref(x), Ref(x)));
            WellTyped(f) && Val(f) == 10
            && |Derivative(f, ["x", "y"])| == 2
            && Val(Derivative(f, ["x", "y"])[0]) == 7
            && Val(Derivative(f, ["x", "y"])[1]) == 2
  {
    var x := BindSymbol(Const(2), "x");
    var y := BindSymbol(Const(3), "y");
    var xy := NodeOp(Times, Ref(x), Ref(y));
    var xx := NodeOp(Times, Ref(x), Ref(x));
    var f := NodeOp(Plus, Ref(xy), xx);
    assert Val(xy) == 6 && Val(xx) == 4;
    assert Val(Partial(x, "x")) == 1 && Val(Partial(y, "x")) == 0;
    assert Val(Partial(x, "y")) == 0 && Val(Partial(y, "y")) == 1;
    NodeOpSemantics(Times, Ref(x), Ref(y), "x");
    NodeOpSemantics(Times, Ref(x), Ref(x), "x");
    NodeOpSemantics(Times, Ref(x), Ref(y), "y");
    NodeOpSemantics(Times, Ref(x), Ref(x), "y");
    NodeOpSemantics(Plus, Ref(xy), xx, "x");
    NodeOpSemantics(Plus, Ref(xy), xx, "y");
  }
}
