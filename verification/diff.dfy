/**
  The name-based symbolic differentiator: constant, atom and matrix leaves
  (src/value.rs, src/mat.rs), named and anonymous symbols (src/symbol.rs), the `Add` and
  `Mul` combinators (src/ops.rs) and the `Node` and reference wrappers (src/lib.rs).

  The combinators evaluate in the mathematical scalar; an operand's value is read as a
  scalar the way the mixed `NodeValue`/`Atom` operators of src/value.rs read it: a boxed
  scalar by dereferencing, an atom through `From<Atom>`.
 */
module Diff {
  import opened Options
  import opened Values
  import opened Mat

  datatype Expr =
    | Const(c: int)                     // a primitive scalar used as a node
    | AtomLeaf(a: Atom)                 // an `Atom` used as a node
    | MatLeaf(m: Matrix)                // a matrix used as a node
    | Sym(name: string, inner: Expr)    // `Symbol`: a node bound to a name
    | Anon                              // `AnonymousSymbol`
    | Add(lhs: Expr, rhs: Expr)
    | Mul(lhs: Expr, rhs: Expr)
    | Wrap(node: Expr)                  // `Node<N>`
    | Ref(target: Expr)                 // `&N`

  /** What a node evaluates to: a (boxed) scalar, an atom, or an optional matrix. */
  datatype Value = Scalar(x: int) | AtomVal(a: Atom) | MatVal(m: Option<Matrix>)

  /** The expression evaluates to a matrix. */
  predicate MatrixValued(e: Expr)
  {
    match e
    case MatLeaf(_) => true
    case Wrap(n) => MatrixValued(n)
    case Ref(t) => MatrixValued(t)
    case _ => false
  }

  /**
    The trait bounds of the combinators: `Symbol`, `Add` and `Mul` are implemented only
    for operands whose value is a scalar.
   */
  predicate WellTyped(e: Expr)
  {
    match e
    case Sym(_, i) => WellTyped(i) && !MatrixValued(i)
    case Add(l, r) => WellTyped(l) && WellTyped(r) && !MatrixValued(l) && !MatrixValued(r)
    case Mul(l, r) => WellTyped(l) && WellTyped(r) && !MatrixValued(l) && !MatrixValued(r)
    case Wrap(n) => WellTyped(n)
    case Ref(t) => WellTyped(t)
    case _ => true
  }

  /** A scalar-shaped value read as a number. */
  function ScalarOf(v: Value): int
    requires !v.MatVal?
  {
    match v
    case Scalar(x) => x
    case AtomVal(a) => AtomValue(a)
  }

  /** `eval` of every node kind. */
  function Eval(e: Expr): (v: Value)
    requires WellTyped(e)
    ensures v.MatVal? <==> MatrixValued(e)
    ensures e.MatLeaf? ==> v == MatVal(Some(e.m))
    ensures e.AtomLeaf? ==> v == AtomVal(e.a)
  {
    match e
    case Const(c) => Scalar(c)
    case AtomLeaf(a) => AtomVal(a)
    case MatLeaf(m) => MatVal(Some(m))
    case Sym(_, i) => Eval(i)
    case Anon => Scalar(0)
    case Add(l, r) => Scalar(ScalarOf(Eval(l)) + ScalarOf(Eval(r)))
    case Mul(l, r) => Scalar(ScalarOf(Eval(l)) * ScalarOf(Eval(r)))
    case Wrap(n) => Eval(n)
    case Ref(t) => Eval(t)
  }

  /** The scalar a scalar-valued expression evaluates to. */
  function Val(e: Expr): int
    requires WellTyped(e) && !MatrixValued(e)
  {
    ScalarOf(Eval(e))
  }

  /** A derivative expression: well typed, scalar valued. */
  predicate IsDerivative(d: Expr)
  {
    WellTyped(d) && !MatrixValued(d)
  }

  /**
    The derivative expression of `e` for one requested name, rule by rule: leaves give
    the atom `Zero`, the anonymous symbol `0`, a symbol `1` for its own name and its
    inner node's evaluated derivative otherwise, `Add` the sum of the operand derivatives
    and `Mul` the product rule with the operands borrowed.
   */
  function Partial(e: Expr, k: string): (d: Expr)
    requires WellTyped(e)
    ensures IsDerivative(d)
  {
    match e
    case Const(_) => AtomLeaf(Zero)
    case AtomLeaf(_) => AtomLeaf(Zero)
    case MatLeaf(_) => AtomLeaf(Zero)
    case Sym(n, i) => if k == n then Const(1) else Const(Val(Partial(i, k)))
    case Anon => Const(0)
    case Add(l, r) => Add(Partial(l, k), Partial(r, k))
    case Mul(l, r) => Add(Mul(Ref(l), Partial(r, k)), Mul(Ref(r), Partial(l, k)))
    case Wrap(n) => Partial(n, k)
    case Ref(t) => Partial(t, k)
  }

  /**
    `derivative(k)` of every node kind: one derivative expression per requested name, in
    the order requested, computed for all names at once and zipped the way the source
    zips its operand arrays. The i-th result is the derivative for the i-th name.
   */
  function Derivative(e: Expr, ks: seq<string>): (ds: seq<Expr>)
    requires WellTyped(e)
    ensures |ds| == |ks|
    ensures forall i :: 0 <= i < |ks| ==> ds[i] == Partial(e, ks[i])
  {
    match e
    case Const(_) => seq(|ks|, _ => AtomLeaf(Zero))
    case AtomLeaf(_) => seq(|ks|, _ => AtomLeaf(Zero))
    case MatLeaf(_) => seq(|ks|, _ => AtomLeaf(Zero))
    case Sym(n, i) =>
      seq(|ks|, j requires 0 <= j < |ks| =>
        if ks[j] == n then Const(1) else Const(Val(Derivative(i, [ks[j]])[0])))
    case Anon => seq(|ks|, _ => Const(0))
    case Add(l, r) =>
      var dl := Derivative(l, ks);
      var dr := Derivative(r, ks);
      seq(|ks|, j requires 0 <= j < |ks| => Add(dl[j], dr[j]))
    case Mul(l, r) =>
      var dl := Derivative(l, ks);
      var dr := Derivative(r, ks);
      seq(|ks|, j requires 0 <= j < |ks| => Add(Mul(Ref(l), dr[j]), Mul(Ref(r), dl[j])))
    case Wrap(n) => Derivative(n, ks)
    case Ref(t) => Derivative(t, ks)
  }

  /** The names the symbols of an expression carry. */
  function Names(e: Expr): set<string>
  {
    match e
    case Sym(n, i) => {n} + Names(i)
    case Add(l, r) => Names(l) + Names(r)
    case Mul(l, r) => Names(l) + Names(r)
    case Wrap(n) => Names(n)
    case Ref(t) => Names(t)
    case _ => {}
  }
}
