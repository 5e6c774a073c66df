/**
  The earlier const-generic encoding of the atoms (src/scalar.rs): `Zero` is `Bit<false>`,
  `One` is `Bit<true>`, each convertible into every primitive type.
 */
module Bits {
  import opened Values

  datatype Bit = Bit(b: bool)

  const BitZero: Bit := Bit(false)
  const BitOne: Bit := Bit(true)

  /** `From<Zero>` and `From<One>` for primitive type `t`. */
  function FromBit(t: Prim, x: Bit): (r: Num)
    ensures r.ty == t && Fits(t, r.v)
    ensures x == BitZero ==> r.v == 0
    ensures x == BitOne ==> r.v == 1
  {
    if x.b then Num(t, 1) else Num(t, 0)
  }

  /** The atom each bit type replaces. */
  function AtomOf(x: Bit): (a: Atom)
    ensures x == BitZero <==> a == Zero
  {
    if x.b then One else Zero
  }

  /** For all twelve primitive types, converting a bit agrees with converting its atom. */
  lemma BitConversionAgreesWithAtom(t: Prim, x: Bit)
    ensures FromBit(t, x) == FromAtom(t, AtomOf(x))
  {
  }
}
