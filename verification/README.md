# autodiff, modelled in Dafny

A model of the core of the `autodiff` Rust crate, which does symbolic automatic
differentiation: expression trees built from scalars, atoms, matrices and named symbols
evaluate to a value and produce, for every requested variable name, a new expression
whose value is the partial derivative. The model also covers the crate's earlier
identity-based differentiator (`src/old.rs`) and its hash-consing evaluation graph
(`src/graph.rs`).

Modules, following the source files:

- `Values` (`src/value.rs`): the `Atom` zero/one, its conversion into the twelve
  primitive types, the `NodeValue` box, and the operators between boxes and atoms.
- `Bits` (`src/scalar.rs`): the type-level `Bit<B>` and its conversions.
- `PrimitiveOps` (`src/primitive_ops.rs`): `elem_mul` on primitives.
- `Mat` (`src/mat.rs`): matrices as leaves, and the sum of optional matrices in which
  `None` is a structural zero.
- `Diff`, `DiffProps`, `Build`, `DiffDebug` (`src/symbol.rs`, `src/ops.rs`, `src/lib.rs`):
  - one expression datatype for every node kind;
  - evaluation and the derivative rules;
  - the operators that build nodes;
  - the `Debug` printouts.
- `Old`, `OldDebug` (`src/old.rs`): the identity-based differentiator. Leaves are told
  apart by an explicit identity, where the source uses the `Arc` address. Each derivative
  leaf takes a new identity from a counter that starts above every identity in use.
- `Bridge`: translates an identity-based tree into a name-based one. Both differentiators
  then give derivatives with the same values.
- `Graph` (`src/graph.rs`): the deduplicating graph of compiled nodes and data slots. It
  carries an invariant that every operation keeps.
- `Expansion` and `Numerals`: algebra and decimal-numeral helpers.

The derivative's independent partner is a first-order expansion. Bind every symbol named
`k` to its value plus `h`. The expression's value then changes by exactly `h` times the
value of the derivative expression, plus a multiple of `h*h`. This is proved for every
well-typed expression, in both differentiators, so the derivative is the exact slope and
not just the output of the rules.

Two rules of the source are worth stating plainly:

- `src/symbol.rs:38-46` gives a symbol, for a name other than its own, its inner node's
  evaluated derivative. No seed is multiplied in.
- `src/ops.rs:34-43` differentiates `Mul` by the scalar product rule on borrowed
  operands, with no transposition.

The source files do not type-check together. For example, the `Atom` leaf evaluates to
an `Atom`, a primitive leaf to a `NodeValue`, and `Add` needs `f32` operands. So the
combinators read an operand's value as a scalar, the way the mixed operators of
`src/value.rs` do: a box by dereferencing it, an atom through `From<Atom>`. Scalars are
mathematical integers.

`Diff.Value` holds such a scalar untagged, while `Values.Num` carries a primitive type
tag. The operators of `src/value.rs` are implemented for each of the twelve primitive
types, so there the tag matters. The combinators of `src/ops.rs` are implemented for
`f32` operands only, so in `Diff` the tag would always be `F32`.

## Model

| member | source | states |
|---|---|---|
| `Values.FromAtom` | src/value.rs:30-37 | `Zero` converts to 0 and `One` to 1 in every primitive type, and the result fits the type; both directions hold |
| `Values.Deref` | src/value.rs:59-65 | dereferencing a `NodeValue` gives the value it boxes |
| `Values.NodeOpAtom` | src/value.rs:77-83 | a box combined with an atom on the right gives the same as combining with the atom converted into the box's type |
| `Values.AtomOpNode` | src/value.rs:85-91 | the same with the atom on the left |
| `Values.AtomIdentities` | src/value.rs:77-91 | `One` is the multiplicative unit, `Zero` annihilates under `*`, and `Zero` is the additive unit, on either side of a box |
| `Bits.FromBit` | src/scalar.rs:9-18 | `Bit<false>` converts to 0 and `Bit<true>` to 1 in every primitive type |
| `Bits.AtomOf` | src/scalar.rs:2-3 | `Bit<false>` corresponds to `Zero`, and only it does |
| `Bits.BitConversionAgreesWithAtom` | src/scalar.rs:7-22 | converting a bit is the same as converting the corresponding atom |
| `PrimitiveOps.ElemMulAlgebra` | src/primitive_ops.rs:10-12 | `elem_mul` is commutative, has the converted `One` as unit and the converted `Zero` as annihilator |
| `Mat.AddOpt` | src/mat.rs:30-37 | the sum of optional matrices is `None` exactly when both are. A `None` operand returns the other one unchanged. The shape is kept |
| `Mat.AddOptIsDenseAdd` | src/mat.rs:31-36 | reading `None` as the zero matrix, the optional sum is the dense sum |
| `Mat.AddOptCommutative` | src/mat.rs:31-36 | the optional sum does not depend on operand order |
| `Diff.Eval` | src/mat.rs:16-18 | a matrix leaf evaluates to `Some` of itself and an atom to itself. A value is a matrix exactly when the expression is matrix-valued |
| `Diff.Partial` | src/ops.rs:38-43 | every derivative expression is well typed and scalar-valued |
| `Diff.Derivative` | src/ops.rs:17-22 | one derivative per requested name, in request order. The i-th is the derivative for the i-th name, computed as if asked alone |
| `DiffProps.LeafRules` | src/mat.rs:16-22 | leaves evaluate to themselves and give the atom `Zero` for every requested name |
| `DiffProps.AnonymousRules` | src/symbol.rs:52-63 | the anonymous symbol evaluates to 0, and so do all its derivatives |
| `DiffProps.SymbolRules` | src/symbol.rs:34-46 | a symbol evaluates as its inner node. Its derivative is 1 for its own name and the inner node's evaluated derivative for any other name |
| `DiffProps.AddRules` | src/ops.rs:13-22 | `Add` evaluates to the sum, and its derivatives are the pairwise sums of the operand derivatives |
| `DiffProps.MulRules` | src/ops.rs:34-43 | `Mul` evaluates to the product. Its derivative is `Add(Mul(&x, dy), Mul(&y, dx))` and evaluates to `x*dy + y*dx` |
| `DiffProps.ProductRuleValue` | src/ops.rs:38-43 | the product rule, on values, for one name |
| `DiffProps.WrappersDelegate` | src/lib.rs:43-62 | `Node` evaluates and differentiates exactly as the node it wraps, and so does `&N` (src/lib.rs:102-121) |
| `DiffProps.DerivativeIsPointwise` | src/symbol.rs:38-46 | asking for names `ks ++ ks'` gives the derivatives for `ks` followed by those for `ks'` |
| `DiffProps.AbsentNameHasZeroDerivative` | src/symbol.rs:38-46 | the derivative for a name that no symbol of the expression carries evaluates to 0 |
| `DiffProps.DerivativeIsFirstOrderCoefficient` | src/ops.rs:28-43 | shifting every symbol named `k` by `h` changes the value by `h` times the derivative's value, up to a multiple of `h*h` |
| `Build.BindSymbol` | src/lib.rs:81-86 | `x.symbol(s)` adds the name `s`, keeps the value, and stays well typed |
| `Build.SymbolNamed` | src/symbol.rs:65-67 | `symbol(s)` is a well-typed scalar node carrying exactly the name `s` |
| `Build.SymbolNamedRules` | src/symbol.rs:56-67 | `symbol(s)` evaluates to 0. Its derivative is 1 for `s` and 0 for every other name |
| `Build.NodeOp` | src/ops.rs:63-78 | `node + rhs` and `node * rhs` build a `Node` whose names are those of both operands |
| `Build.NodeOpSemantics` | src/ops.rs:66-72 | the built node evaluates to the operator applied to the operand values, and its derivatives follow the sum and product rules |
| `Build.ProductRuleExample` | src/lib.rs:126-128 | for `x = 2` and `y = 3`, the numerator `x*y + x*x` of the test's `f` evaluates to 10, with derivative 7 in `x` and 2 in `y` |
| `DiffDebug.DebugDropsGrouping` | src/ops.rs:46-54 | `2*3 + 4` and `2*(3+4)` print alike (`2.0 * 3.0 + 4.0`) but evaluate to 10 and 14 |
| `DiffDebug.BuiltNodeDebug` | src/lib.rs:37-41 | a built node prints as `@(lhs op rhs)` |
| `Old.Derivative` | src/old.rs:30-80 | one derivative per requested identity. Each evaluates to the slope in that leaf. Given a node whose leaf ids are all below the counter, every leaf of a derivative is a leaf of the original or a new one with an id the call drew from the counter, and the derivatives' ids are again below the advanced counter |
| `Old.LeafRule` | src/old.rs:30-34 | a leaf's derivatives are new leaves, one per requested id, holding 1 for its own identity and 0 otherwise. Their ids differ from the leaf's and from each other |
| `Old.NewLeavesNeverAlias` | src/old.rs:30-34 | a derivative's leaf is one of the original's exactly when its id is below the starting counter, so a new leaf never aliases an original one |
| `Old.CombinatorRules` | src/old.rs:43-80 | `Add` sums and `Mul` multiplies. Their derivatives are the pairwise sum and the product rule over the operands' derivatives |
| `Old.SlopeIsFirstOrderCoefficient` | src/old.rs:39-80 | shifting the leaf `k` by `h` changes the value by `h` times the slope, up to a multiple of `h*h` |
| `Old.DerivativeIsFirstOrderCoefficient` | src/old.rs:67-80 | the same, for the evaluated derivative expressions |
| `Old.AbsentIdHasZeroSlope` | src/old.rs:30-34 | the derivative for an identity that no leaf carries evaluates to 0 |
| `Old.RegressionExample` | src/old/test.rs:5-18 | `x*y + x*x` at `x = 2`, `y = 3` evaluates to 10, with derivatives 7 and 2 |
| `OldDebug.ReadShow` | src/old.rs:83-94 | the parenthesised printout of a node reads back as its shape and leaf values |
| `OldDebug.ShowDeterminesShape` | src/old.rs:83-94 | two nodes that print alike have the same shape and leaf values |
| `Bridge.Translate` | src/symbol.rs:27-47 | an identity-based tree becomes a well-typed, scalar-valued named expression |
| `Bridge.TranslatePreservesValueAndSlope` | src/old.rs:30-34 | when each identity gets its own name, the translated expression has the same value and the same slope in each leaf |
| `Bridge.DerivativesAgree` | src/old.rs:16-19 | requested together, the derivatives of both differentiators evaluate alike |
| `Graph.Collect` | src/graph.rs:32-37 | the collected hash has the root's type tag and the sub-hashes' slots, the first sub-hash's in front |
| `Graph.CollectConcat` | src/graph.rs:35 | collecting over a concatenation concatenates the slot lists |
| `Graph.CollectSingleSlots` | src/graph.rs:32-37 | over leaves with one slot each, the collected hash lists exactly those slots in order |
| `Graph.New` | src/graph.rs:194-201 | a new graph is empty and valid |
| `Graph.FirstCached` | src/graph.rs:168-170 | the position of the first cached hash, or the length when none is cached |
| `Graph.Insert` | src/graph.rs:160-191 | an empty hash list panics. The first cached hash returns its node, with the graph unchanged. Otherwise a failed allocation panics, or the node is appended with a new slot and cached under the first hash |
| `Graph.InsertKeepsValid` | src/graph.rs:166-185 | insertion keeps the invariant and adds at most one node. The returned index is cached under its own hash. Earlier nodes and slots stay put |
| `Graph.AppendKeepsValid` | src/graph.rs:174-184 | appending under an uncached hash with a fresh slot keeps the invariant |
| `Graph.Data` | src/graph.rs:251-256 | the data of a node is its slot, and a missing node panics |
| `Graph.InsertedNodeData` | src/graph.rs:251-256 | a freshly inserted node reads back its allocated value, and a deduplicated one its old slot |
| `Graph.NewScalar` | src/graph.rs:204-208 | an upload error returns the error with the graph unchanged. Otherwise the value gets the next slot, which is returned |
| `Graph.NewMatrix` | src/graph.rs:210-227 | panics exactly when `R*C` differs from the value count. Otherwise the value is uploaded like a scalar and returned untransposed with leading dimension 0 |
| `Graph.InsertedIndexReadsItsSlot` | src/graph.rs:97-117 | after `insert`, `as_scalar`, `as_matrix` and `data` of the returned index all name one existing slot: the slot just allocated, holding the allocated value, for a new node, or the node's old slot for a deduplicated one |
| `Graph.ScalarRoundTrip` | src/graph.rs:267-272 | `get_scalar` of the scalar that `scalar` returns gives back the stored value, on a backend that downloads what it uploaded |
| `Graph.MatrixRoundTrip` | src/graph.rs:275-280 | `get_matrix` of the matrix that `matrix::<R, C>` returns gives back the `R*C` values in order, on the same backend |
| `Graph.SlotHashInjective` | src/graph.rs:339-346 | two leaves hash alike exactly when their type tags and slots agree, so scalars sharing a slot dedupe whatever their symbols |
| `Graph.CompileScalar` | src/graph.rs:316-322 | a compiled scalar is found under its own hash or appended with a new slot |
| `Graph.CompileMatrix` | src/graph.rs:358-364 | the same for a matrix |
| `Graph.CompileScalarIdempotent` | src/graph.rs:316-322 | compiling a scalar again returns the same index and leaves the graph unchanged |
| `Graph.CompileMatrixIdempotent` | src/graph.rs:358-364 | the same for a matrix |

## Left out

- Floating point: `f32`/`f64` and the integer types are mathematical integers. There is no overflow, wrap-around or rounding, and `Fits` gives the integer ranges only for the conversions of atoms and bits.
- The seeded `derivative(k, d)` signature in `src/lib.rs`: no node in `src/value.rs`, `src/mat.rs`, `src/symbol.rs` or `src/ops.rs` implements the seeded `derivative(k, d)`. The rules modelled are the unseeded ones of `src/symbol.rs` and `src/ops.rs`.
- `is_zero`: no leaf or combinator implements it. `Node` and `&N` only delegate it (src/lib.rs:59-61, 118-120).
- `transpose` and `exp`: the trait defaults at src/lib.rs:88-99 build `Transpose` and `Exp` nodes, whose types are not defined in the files modelled.
- `Sub`, `Neg`, `Div`, `Sum` and the `ElemMul` node: their sources are not part of this model.
- `DiffDebug.Show`: `Debug` of matrices (nalgebra's printout) is not modelled.
- `Diff.Eval`: matrix values inside `Add` and `Mul` are not modelled, because the combinators are only implemented for `f32` operands.
- `DiffDebug.Show`: escapes only `"`, `\`, `\n`, `\r`, `\t` and `\0` in a symbol's name. It does not model the Unicode escapes of `str`'s `Debug`.
- `DiffDebug.Show`: prints integral floats as `n.0` and does not model the exponent forms.
- `OldDebug.Show`: the same; a leaf prints as `n.0`, without the exponent forms of `f32`'s `Debug`.
- The backend (`alloc`, `static_alloc`, `htod`, `dtoh`): its outcomes are parameters.
- `type_id` and `transmute`: the type tag is a parameter.
- `Graph::eval`: its type-erased dispatch is not modelled.
- `NodeIndex::transmute`: not modelled.
- The `Op::eval` of `Scalar` and `Matrix`: both are the identity.
- `Graph.Data`: `mut_data` is the same lookup and is not repeated.
- The `name` field of `CompiledNode` and the graph's `Debug`: they only label printouts.
- `Old.Derivative`: `Arc` address identity is an explicit number, and derivative leaves take numbers from a counter. It requires that every leaf id of the node be below the counter, which `Arc::new` (src/old.rs:32) guarantees by never reusing a live address.
- `src/backwards.rs`, `src/anon.rs`, `src/expr.rs`, `src/macro.rs`, `src/cache.rs`, `src/derivatives.rs`: these are not part of this model.
