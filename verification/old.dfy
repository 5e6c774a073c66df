/**
  The identity-based predecessor of the differentiator (src/old.rs): `f32` leaves are told
  apart by the address of their `Arc`, modelled as an explicit id. Every leaf a derivative
  creates is a new allocation; its id is drawn from a counter of unused ids.
 */
module Old {
  import Expansion

  type NodeId = nat

  datatype Node =
    | Leaf(id: NodeId, v: int)
    | Add(lhs: Node, rhs: Node)
    | Mul(lhs: Node, rhs: Node)

  function Eval(t: Node): int
  {
    match t
    case Leaf(_, v) => v
    case Add(l, r) => Eval(l) + Eval(r)
    case Mul(l, r) => Eval(l) * Eval(r)
  }

  /** The identities of the leaves of a node. */
  function LeafIds(t: Node): set<NodeId>
  {
    match t
    case Leaf(id, _) => {id}
    case Add(l, r) => LeafIds(l) + LeafIds(r)
    case Mul(l, r) => LeafIds(l) + LeafIds(r)
  }

  /**
    Every leaf of `t` has an id below `next`: ids from `next` on are unused, as the address
    of a new `Arc` is distinct from every live one.
   */
  predicate FreshFrom(t: Node, next: NodeId)
  {
    match t
    case Leaf(id, _) => id < next
    case Add(l, r) => FreshFrom(l, next) && FreshFrom(r, next)
    case Mul(l, r) => FreshFrom(l, next) && FreshFrom(r, next)
  }

  /** Under `FreshFrom`, every leaf id of the node is below `next`. */
  lemma {:induction false} FreshIdsBelow(t: Node, next: NodeId, id: NodeId)
    requires FreshFrom(t, next) && id in LeafIds(t)
    ensures id < next
  {
    match t
    case Leaf(_, _) =>
    case Add(l, r) =>
      if id in LeafIds(l) { FreshIdsBelow(l, next, id); } else { FreshIdsBelow(r, next, id); }
    case Mul(l, r) =>
      if id in LeafIds(l) { FreshIdsBelow(l, next, id); } else { FreshIdsBelow(r, next, id); }
  }

  /** Drawing ids only moves the counter up, so a node whose ids are below it stays so. */
  lemma {:induction false} FreshFromGrows(t: Node, next: NodeId, later: NodeId)
    requires FreshFrom(t, next) && next <= later
    ensures FreshFrom(t, later)
  {
    match t
    case Leaf(_, _) =>
    case Add(l, r) =>
      FreshFromGrows(l, next, later);
      FreshFromGrows(r, next, later);
    case Mul(l, r) =>
      FreshFromGrows(l, next, later);
      FreshFromGrows(r, next, later);
  }

  /** The slope of `t` in the leaf with identity `k`, by the sum and product rules. */
  function Slope(t: Node, k: NodeId): int
  {
    match t
    case Leaf(id, _) => if id == k then 1 else 0
    case Add(l, r) => Slope(l, k) + Slope(r, k)
    case Mul(l, r) => Eval(l) * Slope(r, k) + Eval(r) * Slope(l, k)
  }

  /**
    `derivative(k)`: one new node per requested id, in order. A leaf allocates a new leaf
    holding 1 for its own id and 0 otherwise; `Add` pairs the operand derivatives;
    `Mul(x, y)` builds `Add(Mul(x, dy), Mul(y, dx))` sharing `x` and `y`. The left operand
    is differentiated before the right one, so it draws its new ids first.
   */
  function Derivative(t: Node, ks: seq<NodeId>, next: NodeId): (r: (seq<Node>, NodeId))
    requires FreshFrom(t, next)
    ensures |r.0| == |ks| && next <= r.1
    ensures forall i :: 0 <= i < |ks| ==> Eval(r.0[i]) == Slope(t, ks[i])
    ensures forall i, id :: 0 <= i < |ks| && id in LeafIds(r.0[i]) ==>
              id in LeafIds(t) || next <= id < r.1
    ensures forall i :: 0 <= i < |ks| ==> FreshFrom(r.0[i], r.1)
  {
    match t
    case Leaf(id, _) =>
      (seq(|ks|, i requires 0 <= i < |ks| => Leaf(next + i, if ks[i] == id then 1 else 0)),
       next + |ks|)
    case Add(l, r) =>
      var (dl, n1) := Derivative(l, ks, next);
      FreshFromGrows(r, next, n1);
      var (dr, n2) := Derivative(r, ks, n1);
      assert forall i :: 0 <= i < |ks| ==> FreshFrom(dl[i], n2) by {
        forall i | 0 <= i < |ks| { FreshFromGrows(dl[i], n1, n2); }
      }
      (seq(|ks|, i requires 0 <= i < |ks| => Add(dl[i], dr[i])), n2)
    case Mul(l, r) =>
      var (dl, n1) := Derivative(l, ks, next);
      FreshFromGrows(r, next, n1);
      var (dr, n2) := Derivative(r, ks, n1);
      assert forall i :: 0 <= i < |ks| ==> FreshFrom(dl[i], n2) by {
        forall i | 0 <= i < |ks| { FreshFromGrows(dl[i], n1, n2); }
      }
      FreshFromGrows(l, next, n2);
      FreshFromGrows(r, n1, n2);
      (seq(|ks|, i requires 0 <= i < |ks| => Add(Mul(l, dr[i]), Mul(r, dl[i]))), n2)
  }

  /**
    A derivative's leaves are either shared with the original node or newly allocated, and
    the two kinds never share an id: a leaf is an original one exactly when its id is
    below the counter the derivative started from.
   */
  lemma NewLeavesNeverAlias(t: Node, ks: seq<NodeId>, next: NodeId)
    requires FreshFrom(t, next)
    ensures forall i, id :: 0 <= i < |ks| && id in LeafIds(Derivative(t, ks, next).0[i]) ==>
              (id in LeafIds(t) <==> id < next) && id < Derivative(t, ks, next).1
  {
    var r := Derivative(t, ks, next);
    forall i, id | 0 <= i < |ks| && id in LeafIds(r.0[i])
      ensures (id in LeafIds(t) <==> id < next) && id < r.1
    {
      assert id in LeafIds(t) || next <= id < r.1;
      if id in LeafIds(t) {
        FreshIdsBelow(t, next, id);
      }
    }
  }

  /**
    A leaf's derivative holds 1 exactly for its own identity; another leaf with the same
    value but another identity gets 0. The new leaves have ids of their own, distinct from
    the original leaf's and from each other.
   */
  lemma LeafRule(id: NodeId, v: int, ks: seq<NodeId>, next: NodeId)
    requires id < next
    ensures var (ds, n) := Derivative(Leaf(id, v), ks, next);
            n == next + |ks|
            && (forall i :: 0 <= i < |ks| ==>
                  ds[i] == Leaf(next + i, if ks[i] == id then 1 else 0) && ds[i].id != id)
            && (forall i, j :: 0 <= i < j < |ks| ==> ds[i].id != ds[j].id)
  {
  }

  /** `Add` sums, `Mul` multiplies, and their derivatives keep one result per id. */
  lemma CombinatorRules(l: Node, r: Node, ks: seq<NodeId>, next: NodeId)
    requires FreshFrom(l, next) && FreshFrom(r, next)
    ensures Eval(Add(l, r)) == Eval(l) + Eval(r) && Eval(Mul(l, r)) == Eval(l) * Eval(r)
    ensures var (dl, n1) := Derivative(l, ks, next);
            FreshFrom(r, n1)
            && var (dr, _) := Derivative(r, ks, n1);
               forall i :: 0 <= i < |ks| ==>
                 Derivative(Add(l, r), ks, next).0[i] == Add(dl[i], dr[i])
                 && Derivative(Mul(l, r), ks, next).0[i] == Add(Mul(l, dr[i]), Mul(r, dl[i]))
  {
    var (_, n1) := Derivative(l, ks, next);
    FreshFromGrows(r, next, n1);
  }

  /** The value of `t` when every leaf with identity `k` holds its value plus `h`. */
  function Shifted(t: Node, k: NodeId, h: int): int
  {
    match t
    case Leaf(id, v) => if id == k then v + h else v
    case Add(l, r) => Shifted(l, k, h) + Shifted(r, k, h)
    case Mul(l, r) => Shifted(l, k, h) * Shifted(r, k, h)
  }

  function Remainder(t: Node, k: NodeId, h: int): int
  {
    match t
    case Leaf(_, _) => 0
    case Add(l, r) => Remainder(l, k, h) + Remainder(r, k, h)
    case Mul(l, r) =>
      Expansion.ProductRemainder(Eval(l), Slope(l, k), Remainder(l, k, h),
                                 Eval(r), Slope(r, k), Remainder(r, k, h), h)
  }

  /**
    Each derivative evaluates to the exact slope of `t` in the requested leaf: shifting
    that leaf by `h` changes the value by `h` times the derivative, up to a multiple of `h*h`.
   */
  lemma DerivativeIsFirstOrderCoefficient(t: Node, ks: seq<NodeId>, next: NodeId, i: nat, h: int)
    requires FreshFrom(t, next) && i < |ks|
    ensures Shifted(t, ks[i], h)
         == Expansion.Expand(Eval(t), Eval(Derivative(t, ks, next).0[i]), Remainder(t, ks[i], h), h)
  {
    SlopeIsFirstOrderCoefficient(t, ks[i], h);
  }

  lemma {:induction false} SlopeIsFirstOrderCoefficient(t: Node, k: NodeId, h: int)
    ensures Shifted(t, k, h) == Expansion.Expand(Eval(t), Slope(t, k), Remainder(t, k, h), h)
  {
    match t
    case Leaf(_, _) =>
    case Add(l, r) =>
      SlopeIsFirstOrderCoefficient(l, k, h);
      SlopeIsFirstOrderCoefficient(r, k, h);
      Expansion.SumExpansion(Eval(l), Slope(l, k), Remainder(l, k, h),
                             Eval(r), Slope(r, k), Remainder(r, k, h), h);
    case Mul(l, r) =>
      SlopeIsFirstOrderCoefficient(l, k, h);
      SlopeIsFirstOrderCoefficient(r, k, h);
      Expansion.ProductExpansion(Eval(l), Slope(l, k), Remainder(l, k, h),
                                 Eval(r), Slope(r, k), Remainder(r, k, h), h);
  }

  /** The derivative for an id that no leaf carries evaluates to 0. */
  lemma {:induction false} AbsentIdHasZeroSlope(t: Node, k: NodeId)
    requires k !in LeafIds(t)
    ensures Slope(t, k) == 0
  {
    match t
    case Leaf(_, _) =>
    case Add(l, r) =>
      AbsentIdHasZeroSlope(l, k);
      AbsentIdHasZeroSlope(r, k);
    case Mul(l, r) =>
      AbsentIdHasZeroSlope(l, k);
      AbsentIdHasZeroSlope(r, k);
  }

  /**
    With leaves `x = 2` and `y = 3`, `f = x*y + x*x` evaluates to 10 and its derivatives
    for `[x, y]` evaluate to 7 and 2.
   */
  lemma RegressionExample()
    ensures var x, y := Leaf(0, 2), Leaf(1, 3);
            var f := Add(Mul(x, y), Mul(x, x));
            var (ds, _) := Derivative(f, [x.id, y.id], 2);
            Eval(f) == 10 && |ds| == 2 && Eval(ds[0]) == 7 && Eval(ds[1]) == 2
  {
  }
}
