/**
  Matrix leaves' values and the sum of optional matrices (src/mat.rs). A matrix is a
  sequence of rows; `None` is the structural zero of whatever shape the context fixes.
 */
module Mat {
  import opened Options
  import opened Values

  datatype Matrix = Matrix(cells: seq<seq<int>>)

  /** The matrix has `rows` rows of `cols` entries each (the const generics `R`, `C`). */
  predicate HasShape(m: Matrix, rows: nat, cols: nat)
  {
    |m.cells| == rows && forall i :: 0 <= i < rows ==> |m.cells[i]| == cols
  }

  /** An optional matrix that, when present, has the given shape. */
  predicate OptShape(o: Option<Matrix>, rows: nat, cols: nat)
  {
    o.Some? ==> HasShape(o.value, rows, cols)
  }

  /** The zero-filled matrix of a shape. */
  function Zeros(rows: nat, cols: nat): (z: Matrix)
    ensures HasShape(z, rows, cols)
    ensures forall i, j :: 0 <= i < rows && 0 <= j < cols ==> z.cells[i][j] == 0
  {
    Matrix(seq(rows, _ => seq(cols, _ => 0)))
  }

  /** Elementwise sum of two matrices of the same shape (nalgebra's `+`). */
  function MatAdd(a: Matrix, b: Matrix, rows: nat, cols: nat): (s: Matrix)
    requires HasShape(a, rows, cols) && HasShape(b, rows, cols)
    ensures HasShape(s, rows, cols)
    ensures forall i, j :: 0 <= i < rows && 0 <= j < cols ==>
              s.cells[i][j] == a.cells[i][j] + b.cells[i][j]
  {
    Matrix(seq(rows, i requires 0 <= i < rows =>
      seq(cols, j requires 0 <= j < cols => a.cells[i][j] + b.cells[i][j])))
  }

  /** Two matrices of one shape are equal when all their entries are. */
  lemma MatrixExtensionality(a: Matrix, b: Matrix, rows: nat, cols: nat)
    requires HasShape(a, rows, cols) && HasShape(b, rows, cols)
    requires forall i, j :: 0 <= i < rows && 0 <= j < cols ==> a.cells[i][j] == b.cells[i][j]
    ensures a == b
  {
    forall i | 0 <= i < rows
      ensures a.cells[i] == b.cells[i]
    {
    }
  }

  /** `Add` for `NodeValue<Option<SMatrix<T, R, C>>>`: `None` passes the other operand through. */
  function AddOpt(l: NodeValue<Option<Matrix>>, r: NodeValue<Option<Matrix>>, rows: nat, cols: nat)
    : (s: NodeValue<Option<Matrix>>)
    requires OptShape(l.inner, rows, cols) && OptShape(r.inner, rows, cols)
    ensures OptShape(s.inner, rows, cols)
    ensures s.inner.None? <==> l.inner.None? && r.inner.None?
    ensures l.inner.None? ==> s == r
    ensures r.inner.None? ==> s == l
  {
    NodeValue(match (l.inner, r.inner)
      case (None, None) => None
      case (None, Some(b)) => Some(b)
      case (Some(a), None) => Some(a)
      case (Some(a), Some(b)) => Some(MatAdd(a, b, rows, cols)))
  }

  /** The dense matrix an optional matrix denotes: `None` is the zero matrix of the shape. */
  function Dense(o: Option<Matrix>, rows: nat, cols: nat): (m: Matrix)
    requires OptShape(o, rows, cols)
    ensures HasShape(m, rows, cols)
  {
    match o
    case None => Zeros(rows, cols)
    case Some(a) => a
  }

  /**
    The structural zero is transparent: adding optional matrices and then materialising
    the result gives the same matrix as materialising both operands and adding densely.
   */
  lemma AddOptIsDenseAdd(l: NodeValue<Option<Matrix>>, r: NodeValue<Option<Matrix>>, rows: nat, cols: nat)
    requires OptShape(l.inner, rows, cols) && OptShape(r.inner, rows, cols)
    ensures Dense(AddOpt(l, r, rows, cols).inner, rows, cols)
         == MatAdd(Dense(l.inner, rows, cols), Dense(r.inner, rows, cols), rows, cols)
  {
    var lhs := Dense(AddOpt(l, r, rows, cols).inner, rows, cols);
    var rhs := MatAdd(Dense(l.inner, rows, cols), Dense(r.inner, rows, cols), rows, cols);
    MatrixExtensionality(lhs, rhs, rows, cols);
  }

  /** The optional sum is commutative, like the dense one. */
  lemma AddOptCommutative(l: NodeValue<Option<Matrix>>, r: NodeValue<Option<Matrix>>, rows: nat, cols: nat)
    requires OptShape(l.inner, rows, cols) && OptShape(r.inner, rows, cols)
    ensures AddOpt(l, r, rows, cols) == AddOpt(r, l, rows, cols)
  {
    if l.inner.Some? && r.inner.Some? {
      MatrixExtensionality(MatAdd(l.inner.value, r.inner.value, rows, cols),
                           MatAdd(r.inner.value, l.inner.value, rows, cols), rows, cols);
    }
  }
}
