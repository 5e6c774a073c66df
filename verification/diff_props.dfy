/**
  Properties of the name-based differentiator: the per-node rules, the zero derivative
  for names that do not occur, delegation by the wrappers, and the fact that every
  derivative expression evaluates to the exact first-order coefficient of its expression.
 */
module DiffProps {
  import opened Values
  import opened Options
  import opened Diff
  import Expansion

  /** Constant, atom and matrix leaves evaluate to themselves and have derivative `Zero` for every name. */
  lemma LeafRules(e: Expr, ks: seq<string>)
    requires e.Const? || e.AtomLeaf? || e.MatLeaf?
    ensures e.Const? ==> Eval(e) == Scalar(e.c)
    ensures e.AtomLeaf? ==> Eval(e) == AtomVal(e.a)
    ensures e.MatLeaf? ==> Eval(e) == MatVal(Some(e.m))
    ensures |Derivative(e, ks)| == |ks|
    ensures forall i :: 0 <= i < |ks| ==> Derivative(e, ks)[i] == AtomLeaf(Zero)
  {
  }

  /** The anonymous symbol evaluates to 0 and has derivative 0 for every name. */
  lemma AnonymousRules(ks: seq<string>)
    ensures Val(Anon) == 0
    ensures forall i :: 0 <= i < |ks| ==> Val(Derivative(Anon, ks)[i]) == 0
  {
  }

  /**
    A symbol evaluates to its inner node; its derivative is 1 for its own name, whatever
    the inner node, and the inner node's evaluated derivative for every other name.
   */
  lemma SymbolRules(n: string, i: Expr, ks: seq<string>)
    requires WellTyped(Sym(n, i))
    ensures Eval(Sym(n, i)) == Eval(i)
    ensures forall j :: 0 <= j < |ks| && ks[j] == n ==> Val(Derivative(Sym(n, i), ks)[j]) == 1
    ensures forall j :: 0 <= j < |ks| && ks[j] != n ==>
              Val(Derivative(Sym(n, i), ks)[j]) == Val(Derivative(i, [ks[j]])[0])
  {
  }

  /** `Add` evaluates to the sum; each derivative is the sum of the operand derivatives. */
  lemma AddRules(l: Expr, r: Expr, ks: seq<string>)
    requires WellTyped(Add(l, r))
    ensures Val(Add(l, r)) == Val(l) + Val(r)
    ensures forall j :: 0 <= j < |ks| ==>
              Derivative(Add(l, r), ks)[j] == Add(Derivative(l, ks)[j], Derivative(r, ks)[j])
    ensures forall j :: 0 <= j < |ks| ==>
              Val(Derivative(Add(l, r), ks)[j]) == Val(Derivative(l, ks)[j]) + Val(Derivative(r, ks)[j])
  {
  }

  /** `Mul` evaluates to the product; each derivative evaluates to `lhs·d_rhs + rhs·d_lhs`. */
  lemma MulRules(l: Expr, r: Expr, ks: seq<string>)
    requires WellTyped(Mul(l, r))
    ensures Val(Mul(l, r)) == Val(l) * Val(r)
    ensures forall j :: 0 <= j < |ks| ==>
              Derivative(Mul(l, r), ks)[j]
              == Add(Mul(Ref(l), Derivative(r, ks)[j]), Mul(Ref(r), Derivative(l, ks)[j]))
    ensures forall j :: 0 <= j < |ks| ==>
              Val(Derivative(Mul(l, r), ks)[j])
              == Val(l) * Val(Derivative(r, ks)[j]) + Val(r) * Val(Derivative(l, ks)[j])
  {
    forall j | 0 <= j < |ks|
      ensures Val(Derivative(Mul(l, r), ks)[j])
              == Val(l) * Val(Derivative(r, ks)[j]) + Val(r) * Val(Derivative(l, ks)[j])
    {
      ProductRuleValue(l, r, ks[j]);
    }
  }

  /** The value of `Mul`'s derivative expression for one name. */
  lemma ProductRuleValue(l: Expr, r: Expr, k: string)
    requires WellTyped(Mul(l, r))
    ensures Val(Partial(Mul(l, r), k)) == Val(l) * Val(Partial(r, k)) + Val(r) * Val(Partial(l, k))
  {
    assert Eval(Ref(l)) == Eval(l);
    assert Eval(Ref(r)) == Eval(r);
    var dl, dr := Partial(l, k), Partial(r, k);
    assert Val(Mul(Ref(l), dr)) == Val(l) * Val(dr);
    assert Val(Mul(Ref(r), dl)) == Val(r) * Val(dl);
  }

  /** `Node(n)` and `&n` behave exactly as `n`: same value, same derivatives. */
  lemma WrappersDelegate(n: Expr, ks: seq<string>)
    requires WellTyped(n)
    ensures Eval(Wrap(n)) == Eval(n) && Eval(Ref(n)) == Eval(n)
    ensures Derivative(Wrap(n), ks) == Derivative(n, ks)
    ensures Derivative(Ref(n), ks) == Derivative(n, ks)
  {
  }

  /** Requesting the names one at a time gives the same derivatives as requesting them together. */
  lemma DerivativeIsPointwise(e: Expr, ks: seq<string>, ks': seq<string>)
    requires WellTyped(e)
    ensures Derivative(e, ks + ks') == Derivative(e, ks) + Derivative(e, ks')
  {
    var all, front, back := Derivative(e, ks + ks'), Derivative(e, ks), Derivative(e, ks');
    assert |all| == |front + back|;
    forall i | 0 <= i < |all|
      ensures all[i] == (front + back)[i]
    {
      if i < |ks| {
        assert (ks + ks')[i] == ks[i];
      } else {
        assert (ks + ks')[i] == ks'[i - |ks|];
      }
    }
  }

  /** The derivative for a name that no symbol of the expression carries evaluates to 0. */
  lemma {:induction false} AbsentNameHasZeroDerivative(e: Expr, k: string)
    requires WellTyped(e) && k !in Names(e)
    ensures Val(Partial(e, k)) == 0
  {
    match e
    case Const(_) =>
    case AtomLeaf(_) =>
    case MatLeaf(_) =>
    case Anon =>
    case Sym(n, i) =>
      AbsentNameHasZeroDerivative(i, k);
    case Add(l, r) =>
      AbsentNameHasZeroDerivative(l, k);
      AbsentNameHasZeroDerivative(r, k);
    case Mul(l, r) =>
      AbsentNameHasZeroDerivative(l, k);
      AbsentNameHasZeroDerivative(r, k);
      ProductRuleValue(l, r, k);
    case Wrap(n) =>
      AbsentNameHasZeroDerivative(n, k);
    case Ref(t) =>
      AbsentNameHasZeroDerivative(t, k);
  }

  /**
    The value of `e` when every symbol named `k` is bound to its value plus `h`
    (the value of a symbol named `k` replaces whatever its inner node would give).
   */
  function Shifted(e: Expr, k: string, h: int): int
    requires WellTyped(e) && !MatrixValued(e)
  {
    match e
    case Const(c) => c
    case AtomLeaf(a) => AtomValue(a)
    case MatLeaf(_) => assert false; 0
    case Sym(n, i) => if n == k then Val(i) + h else Shifted(i, k, h)
    case Anon => 0
    case Add(l, r) => Shifted(l, k, h) + Shifted(r, k, h)
    case Mul(l, r) => Shifted(l, k, h) * Shifted(r, k, h)
    case Wrap(n) => Shifted(n, k, h)
    case Ref(t) => Shifted(t, k, h)
  }

  /** The second-order remainder of `Shifted` as a polynomial in `h`. */
  function Remainder(e: Expr, k: string, h: int): int
    requires WellTyped(e) && !MatrixValued(e)
  {
    match e
    case Sym(n, i) => if n == k then 0 else Remainder(i, k, h)
    case Add(l, r) => Remainder(l, k, h) + Remainder(r, k, h)
    case Mul(l, r) =>
      Expansion.ProductRemainder(Val(l), Val(Partial(l, k)), Remainder(l, k, h),
                                 Val(r), Val(Partial(r, k)), Remainder(r, k, h), h)
    case Wrap(n) => Remainder(n, k, h)
    case Ref(t) => Remainder(t, k, h)
    case _ => 0
  }

  /**
    The derivative expression for `k` evaluates to the exact slope of the expression in
    the value bound to `k`: shifting every symbol named `k` by `h` changes the value by
    `h` times the derivative, up to a multiple of `h*h`.
   */
  lemma {:induction false} DerivativeIsFirstOrderCoefficient(e: Expr, k: string, h: int)
    requires WellTyped(e) && !MatrixValued(e)
    ensures Shifted(e, k, h) == Expansion.Expand(Val(e), Val(Partial(e, k)), Remainder(e, k, h), h)
  {
    match e
    case Const(_) =>
    case AtomLeaf(_) =>
    case MatLeaf(_) =>
    case Anon =>
    case Sym(n, i) =>
      if n != k {
        DerivativeIsFirstOrderCoefficient(i, k, h);
      }
    case Add(l, r) =>
      DerivativeIsFirstOrderCoefficient(l, k, h);
      DerivativeIsFirstOrderCoefficient(r, k, h);
      Expansion.SumExpansion(Val(l), Val(Partial(l, k)), Remainder(l, k, h),
                             Val(r), Val(Partial(r, k)), Remainder(r, k, h), h);
    case Mul(l, r) =>
      DerivativeIsFirstOrderCoefficient(l, k, h);
      DerivativeIsFirstOrderCoefficient(r, k, h);
      ProductRuleValue(l, r, k);
      Expansion.ProductExpansion(Val(l), Val(Partial(l, k)), Remainder(l, k, h),
                                 Val(r), Val(Partial(r, k)), Remainder(r, k, h), h);
    case Wrap(n) =>
      DerivativeIsFirstOrderCoefficient(n, k, h);
    case Ref(t) =>
      DerivativeIsFirstOrderCoefficient(t, k, h);
  }
}
