/** `ElemMul::elem_mul` for the primitive types (src/primitive_ops.rs). */
module PrimitiveOps {
  import opened Values

  /** Elementwise product of two primitives of the same type is their plain product. */
  function ElemMul(a: Num, b: Num): (r: Num)
    requires a.ty == b.ty
    ensures r.ty == a.ty
    ensures r.v == a.v * b.v
  {
    Num(a.ty, a.v * b.v)
  }

  /** `elem_mul` is commutative, has `1` as unit and `0` as annihilator. */
  lemma ElemMulAlgebra(a: Num, b: Num)
    requires a.ty == b.ty
    ensures ElemMul(a, b) == ElemMul(b, a)
    ensures ElemMul(a, FromAtom(a.ty, One)) == a
    ensures ElemMul(a, FromAtom(a.ty, Zero)) == FromAtom(a.ty, Zero)
  {
  }
}
