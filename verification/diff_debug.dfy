/**
  `Debug` output of the name-based expressions: `lhs + rhs` and `lhs * rhs` with single
  spaces and no parentheses (src/ops.rs), `"name"=inner` for a symbol (src/symbol.rs),
  `@(inner)` for a `Node` (src/lib.rs).
 */
module DiffDebug {
  import opened Values
  import opened Diff
  import opened Numerals
  import Build

  /**
    Expressions whose every node has a `Debug` implementation: matrices are printed by the
    matrix library, which is not modelled, and `AnonymousSymbol` implements no `Debug`.
   */
  predicate Printable(e: Expr)
  {
    match e
    case MatLeaf(_) => false
    case Anon => false
    case Sym(_, i) => Printable(i)
    case Add(l, r) => Printable(l) && Printable(r)
    case Mul(l, r) => Printable(l) && Printable(r)
    case Wrap(n) => Printable(n)
    case Ref(t) => Printable(t)
    case _ => true
  }

  /** A string's `Debug` escapes for the characters handled here. */
  function EscapeChar(c: char): string
  {
    if c == '"' then "\\\""
    else if c == '\\' then "\\\\"
    else if c == '\n' then "\\n"
    else if c == '\r' then "\\r"
    else if c == '\t' then "\\t"
    else if c == '\0' then "\\0"
    else [c]
  }

  function Escape(s: string): string
    decreases |s|
  {
    if |s| == 0 then "" else EscapeChar(s[0]) + Escape(s[1..])
  }

  /** `Debug` of an atom is its variant name. */
  function AtomDebug(a: Atom): string
  {
    match a
    case One => "One"
    case Zero => "Zero"
  }

  function Show(e: Expr): string
    requires Printable(e)
  {
    match e
    case Const(c) => FloatDebug(c)
    case AtomLeaf(a) => AtomDebug(a)
    case Sym(n, i) => "\"" + Escape(n) + "\"=" + Show(i)
    case Add(l, r) => Show(l) + " + " + Show(r)
    case Mul(l, r) => Show(l) + " * " + Show(r)
    case Wrap(n) => "@(" + Show(n) + ")"
    case Ref(t) => Show(t)
  }

  /**
    Printing drops the grouping of the operands: `2.0 * 3.0 + 4.0` is printed both for
    `(2 * 3) + 4` and for `2 * (3 + 4)`, two expressions with different values.
   */
  lemma DebugDropsGrouping()
    ensures var a, b, c := Const(2), Const(3), Const(4);
            Show(Add(Mul(a, b), c)) == Show(Mul(a, Add(b, c))) == "2.0 * 3.0 + 4.0"
            && Val(Add(Mul(a, b), c)) == 10 && Val(Mul(a, Add(b, c))) == 14
  {
    assert FloatDebug(2) == "2.0" && FloatDebug(3) == "3.0" && FloatDebug(4) == "4.0";
  }

  /** An operator applied to a `Node` prints as the tuple labelled `@` around `lhs op rhs`. */
  lemma BuiltNodeDebug(op: BinOp, lhs: Expr, rhs: Expr)
    requires Build.IsNode(lhs) && Printable(lhs) && Printable(rhs)
    ensures Printable(Build.NodeOp(op, lhs, rhs))
    ensures op == Plus ==> Show(Build.NodeOp(op, lhs, rhs)) == "@(" + Show(lhs) + " + " + Show(rhs) + ")"
    ensures op == Times ==> Show(Build.NodeOp(op, lhs, rhs)) == "@(" + Show(lhs) + " * " + Show(rhs) + ")"
  {
    var l := Build.Owned(lhs);
    assert Show(l) == Show(lhs);
    var sep := if op == Plus then " + " else " * ";
    var inner := if op == Plus then Add(l, rhs) else Mul(l, rhs);
    assert Build.NodeOp(op, lhs, rhs) == Wrap(inner);
    assert Show(inner) == Show(l) + sep + Show(rhs);
    assert Show(Wrap(inner)) == "@(" + Show(inner) + ")";
    assert "@(" + (Show(lhs) + sep + Show(rhs)) + ")" == "@(" + Show(lhs) + sep + Show(rhs) + ")";
  }
}
