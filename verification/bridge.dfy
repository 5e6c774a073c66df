/**
  The two differentiators agree: an identity-based node whose leaves are bound, each
  identity to its own name, as symbols over constants, evaluates to the same value and
  has the same derivative values under the name-based rules.
 */
module Bridge {
  import Old
  import opened Diff
  import DiffProps

  /** Each leaf becomes a symbol named after its identity, wrapping the leaf's value. */
  function Translate(t: Old.Node, name: Old.NodeId -> string): (e: Expr)
    ensures WellTyped(e) && !MatrixValued(e)
  {
    match t
    case Leaf(id, v) => Sym(name(id), Const(v))
    case Add(l, r) => Add(Translate(l, name), Translate(r, name))
    case Mul(l, r) => Mul(Translate(l, name), Translate(r, name))
  }

  lemma {:induction false} TranslatePreservesValueAndSlope(t: Old.Node, name: Old.NodeId -> string, k: Old.NodeId)
    requires forall a, b :: name(a) == name(b) ==> a == b
    ensures Val(Translate(t, name)) == Old.Eval(t)
    ensures Val(Partial(Translate(t, name), name(k))) == Old.Slope(t, k)
  {
    match t
    case Leaf(id, v) =>
      assert Eval(Translate(t, name)) == Eval(Const(v));
    case Add(l, r) =>
      TranslatePreservesValueAndSlope(l, name, k);
      TranslatePreservesValueAndSlope(r, name, k);
    case Mul(l, r) =>
      var el, er := Translate(l, name), Translate(r, name);
      TranslatePreservesValueAndSlope(l, name, k);
      TranslatePreservesValueAndSlope(r, name, k);
      DiffProps.ProductRuleValue(el, er, name(k));
  }

  /** Requested together, the i-th derivatives of both differentiators evaluate alike. */
  lemma DerivativesAgree(t: Old.Node, name: Old.NodeId -> string, ks: seq<Old.NodeId>, next: Old.NodeId)
    requires forall a, b :: name(a) == name(b) ==> a == b
    requires Old.FreshFrom(t, next)
    ensures var names := seq(|ks|, i requires 0 <= i < |ks| => name(ks[i]));
            var (old_ds, _) := Old.Derivative(t, ks, next);
            var new_ds := Derivative(Translate(t, name), names);
            forall i :: 0 <= i < |ks| ==> Val(new_ds[i]) == Old.Eval(old_ds[i])
  {
    forall i | 0 <= i < |ks| {
      TranslatePreservesValueAndSlope(t, name, ks[i]);
    }
  }
}
