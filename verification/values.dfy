/**
  Scalars, the Zero/One atom and the `NodeValue` wrapper with its mixed arithmetic
  (src/value.rs). Every primitive element type is modelled by its mathematical value;
  the type is kept as a tag so that "same type in, same type out" can be stated.
 */
module Values {

  /** The two-valued stand-in for the additive and the multiplicative identity. */
  datatype Atom = One | Zero

  /** The twelve primitive types the source implements its conversions for. */
  datatype Prim = U8 | I8 | U16 | I16 | U32 | I32 | U64 | I64 | U128 | I128 | F32 | F64

  /** A primitive number: its type and its value. */
  datatype Num = Num(ty: Prim, v: int)

  /** The number an atom stands for. */
  function AtomValue(a: Atom): int
  {
    match a
    case Zero => 0
    case One => 1
  }

  /** Whether `v` is representable in `t` without wrap-around; floats are unbounded here. */
  predicate Fits(t: Prim, v: int)
  {
    match t
    case U8 => 0 <= v < 0x100
    case I8 => -0x80 <= v < 0x80
    case U16 => 0 <= v < 0x1_0000
    case I16 => -0x8000 <= v < 0x8000
    case U32 => 0 <= v < 0x1_0000_0000
    case I32 => -0x8000_0000 <= v < 0x8000_0000
    case U64 => 0 <= v < 0x1_0000_0000_0000_0000
    case I64 => -0x8000_0000_0000_0000 <= v < 0x8000_0000_0000_0000
    case U128 => 0 <= v < 0x1_0000_0000_0000_0000_0000_0000_0000_0000
    case I128 => -0x8000_0000_0000_0000_0000_0000_0000_0000 <= v < 0x8000_0000_0000_0000_0000_0000_0000_0000
    case F32 => true
    case F64 => true
  }

  /** `From<Atom>` for each primitive type: `Zero` becomes `0 as t`, `One` becomes `1 as t`. */
  function FromAtom(t: Prim, a: Atom): (r: Num)
    ensures r.ty == t && Fits(t, r.v)
    ensures a == Zero <==> r.v == 0
    ensures a == One <==> r.v == 1
  {
    Num(t, AtomValue(a))
  }

  /** `NodeValue<T>`: the boxed result of evaluating a scalar node. */
  datatype NodeValue<+T> = NodeValue(inner: T)

  /** `Deref` for `NodeValue`: yields exactly the wrapped value. */
  function Deref<T>(n: NodeValue<T>): (r: T)
    ensures NodeValue(r) == n
  {
    n.inner
  }

  /** The two operators the source's operator macro is instantiated with. */
  datatype BinOp = Plus | Times

  function Apply(op: BinOp, x: int, y: int): int
  {
    match op
    case Plus => x + y
    case Times => x * y
  }

  /** `NodeValue(l) op NodeValue(r)`: the operator applied inside the wrapper. */
  function NodeOpNode(op: BinOp, l: NodeValue<Num>, r: NodeValue<Num>): (s: NodeValue<Num>)
    requires l.inner.ty == r.inner.ty
    ensures Deref(s).ty == Deref(l).ty
    ensures Deref(s).v == Apply(op, Deref(l).v, Deref(r).v)
  {
    NodeValue(Num(l.inner.ty, Apply(op, l.inner.v, r.inner.v)))
  }

  /** `NodeValue(x) op atom`: the bare scalar `x op T::from(atom)`. */
  function NodeOpAtom(op: BinOp, l: NodeValue<Num>, a: Atom): (s: Num)
    ensures s == Deref(NodeOpNode(op, l, NodeValue(FromAtom(l.inner.ty, a))))
  {
    Num(l.inner.ty, Apply(op, l.inner.v, AtomValue(a)))
  }

  /** `atom op NodeValue(r)`: the bare scalar `T::from(atom) op r`. */
  function AtomOpNode(op: BinOp, a: Atom, r: NodeValue<Num>): (s: Num)
    ensures s == Deref(NodeOpNode(op, NodeValue(FromAtom(r.inner.ty, a)), r))
  {
    Num(r.inner.ty, Apply(op, AtomValue(a), r.inner.v))
  }

  /** The atoms act as the identities they stand for, on either side. */
  lemma AtomIdentities(x: NodeValue<Num>)
    ensures NodeOpAtom(Times, x, One) == Deref(x)
    ensures NodeOpAtom(Times, x, Zero) == Num(Deref(x).ty, 0)
    ensures NodeOpAtom(Plus, x, Zero) == Deref(x)
    ensures AtomOpNode(Times, One, x) == Deref(x)
    ensures AtomOpNode(Times, Zero, x) == Num(Deref(x).ty, 0)
    ensures AtomOpNode(Plus, Zero, x) == Deref(x)
  {
  }
}
