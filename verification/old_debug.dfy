/**
  `Debug` output of the identity-based nodes (src/old.rs): fully parenthesised
  `(l + r)` and `(l * r)`, leaves as floats. Identities are not printed, so the output
  determines a node up to its identities: its shape and leaf values.
 */
module OldDebug {
  import opened Options
  import opened Numerals
  import Old

  function Show(t: Old.Node): string
  {
    match t
    case Leaf(_, v) => FloatDebug(v)
    case Add(l, r) => "(" + Show(l) + " + " + Show(r) + ")"
    case Mul(l, r) => "(" + Show(l) + " * " + Show(r) + ")"
  }

  /** A node with its identities forgotten. */
  datatype Shape = SLeaf(v: int) | SAdd(l: Shape, r: Shape) | SMul(l: Shape, r: Shape)

  function Strip(t: Old.Node): Shape
  {
    match t
    case Leaf(_, v) => SLeaf(v)
    case Add(l, r) => SAdd(Strip(l), Strip(r))
    case Mul(l, r) => SMul(Strip(l), Strip(r))
  }

  /** Reads one printed node from the front of `s`; returns its shape and the rest. */
  function Read(s: string): (r: Option<(Shape, string)>)
    ensures r.Some? ==> |r.value.1| < |s|
    decreases |s|
  {
    if |s| > 0 && s[0] == '(' then
      match Read(s[1..])
      case None => None
      case Some((l, rest)) =>
        if |rest| >= 3 && rest[0] == ' ' && (rest[1] == '+' || rest[1] == '*') && rest[2] == ' ' then
          match Read(rest[3..])
          case None => None
          case Some((r, rest')) =>
            if |rest'| > 0 && rest'[0] == ')' then
              Some((if rest[1] == '+' then SAdd(l, r) else SMul(l, r), rest'[1..]))
            else None
        else None
    else
      match ReadInt(s)
      case None => None
      case Some((v, rest)) =>
        if |rest| >= 2 && rest[..2] == ".0" then Some((SLeaf(v), rest[2..])) else None
  }

  /** Reading what a node prints gives back its shape, whatever follows the printout. */
  lemma {:induction false} ReadShow(t: Old.Node, rest: string)
    ensures Read(Show(t) + rest) == Some((Strip(t), rest))
    decreases t, 1
  {
    match t
    case Leaf(_, v) =>
      ReadIntRoundTrip(v, ".0" + rest);
      assert Show(t) + rest == IntToString(v) + (".0" + rest);
      assert IntToString(v)[0] != '(';
    case Add(_, _) =>
      ReadCombinator(t, rest);
    case Mul(_, _) =>
      ReadCombinator(t, rest);
  }

  lemma {:induction false} ReadCombinator(t: Old.Node, rest: string)
    requires !t.Leaf?
    ensures Read(Show(t) + rest) == Some((Strip(t), rest))
    decreases t, 0
  {
    var l, r := t.lhs, t.rhs;
    var op := if t.Add? then '+' else '*';
    var sl, sr := Show(l), Show(r);
    var tail := ")" + rest;
    var afterL := [' ', op, ' '] + (sr + tail);
    assert Show(t) == "(" + sl + [' ', op, ' '] + sr + ")";
    var printed := Show(t) + rest;
    assert printed == "(" + (sl + afterL) by {
      Concat5("(", sl, [' ', op, ' '], sr, ")", rest);
    }
    assert printed[1..] == sl + afterL;
    ReadShow(l, afterL);
    assert afterL[3..] == sr + tail;
    ReadShow(r, tail);
    ReadUnfold(printed, Strip(l), afterL, Strip(r), tail);
    assert tail[1..] == rest;
  }

  lemma Concat5(a: string, b: string, c: string, d: string, e: string, f: string)
    ensures a + b + c + d + e + f == a + (b + (c + (d + (e + f))))
  {
  }

  /** One step of `Read` on a parenthesised combinator. */
  lemma ReadUnfold(s: string, l: Shape, afterL: string, r: Shape, tail: string)
    requires |s| > 0 && s[0] == '('
    requires Read(s[1..]) == Some((l, afterL))
    requires |afterL| >= 3 && afterL[0] == ' ' && (afterL[1] == '+' || afterL[1] == '*') && afterL[2] == ' '
    requires Read(afterL[3..]) == Some((r, tail))
    requires |tail| > 0 && tail[0] == ')'
    ensures Read(s) == Some((if afterL[1] == '+' then SAdd(l, r) else SMul(l, r), tail[1..]))
  {
  }

  /** Two nodes that print the same have the same shape and leaf values. */
  lemma ShowDeterminesShape(t1: Old.Node, t2: Old.Node)
    requires Show(t1) == Show(t2)
    ensures Strip(t1) == Strip(t2)
  {
    ReadShow(t1, "");
    ReadShow(t2, "");
    assert Show(t1) + "" == Show(t1);
    assert Show(t2) + "" == Show(t2);
  }
}
