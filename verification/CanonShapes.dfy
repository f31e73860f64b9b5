/** What the canonicaliser recognises: every sum of one variable and constants. */
module CanonShapes {
  import opened Words
  import opened SymExpr

  lemma WrapTwice(x: int, d: int)
    ensures WrapI(WrapI(x) + d) == WrapI(x + d)
  {
  }

  lemma {:induction false} CanonGoShift(e: Expr, acc: i64, d: int)
    ensures CanonGo(e, WrapI(acc + d)).Some? <==> CanonGo(e, acc).Some?
    ensures CanonGo(e, acc).Some? ==>
              var c := CanonGo(e, acc).value; CanonGo(e, WrapI(acc + d)) == Some(Canon(c.root, WrapI(c.disp + d)))
  {
    hide WrapI, Peel;
    match e
    case Const(k) =>
      WrapTwice(acc + d, k);
      WrapTwice(acc + k, d);
    case ToU64(inner) => CanonGoShift(inner, acc, d);
    case Binary(_, _, _) =>
      var p := Peel(e);
      if p.Some? {
        var shift := p.value.shift;
        CanonGoShift(p.value.rest, WrapI(acc + shift), d);
        WrapTwice(acc + shift, d);
        WrapTwice(acc + d, shift);
      }
    case _ =>
  }

  /** Moving the offset moves the displacement and keeps the root. */
  lemma CanonShift(base: Expr, off: i64, d: int)
    ensures CanonAddr(base, WrapI(off + d))
            == Canon(CanonAddr(base, off).root, WrapI(CanonAddr(base, off).disp + d))
  {
    hide WrapI, CanonGo;
    CanonGoShift(base, off, d);
  }

  /** A constant on the right moves out of a sum or a difference. */
  lemma RightConstant(op: BinaryOp, e: Expr, c: Expr, k: i64, acc: i64)
    requires ConstOf(c) == Some(k) && (op.WrapAdd? || op.NatAdd? || op.WrapSub?)
    ensures CanonGo(Binary(op, e, c), acc) == CanonGo(e, WrapI(acc + if op.WrapSub? then 0 - k else k))
  {
    hide WrapI, ConstOf;
  }

  // ----- sums of one variable -----

  /** One way to move an address: a constant added on either side, wrapping or as a frame offset, or
      subtracted; the constant bare or converted. */
  datatype Move = Plus(k: i64, op: BinaryOp, left: bool, bare: bool) | Minus(k: i64, bare: bool) | Convert

  function ConstExpr(k: i64, bare: bool): Expr {
    if bare then Const(k) else ToU64(Const(k))
  }

  function Moved(e: Expr, m: Move): Expr {
    match m
    case Plus(k, op, left, bare) =>
      if left then Binary(op, ConstExpr(k, bare), e) else Binary(op, e, ConstExpr(k, bare))
    case Minus(k, bare) => Binary(WrapSub, e, ConstExpr(k, bare))
    case Convert => ToU64(e)
  }

  predicate IsSum(m: Move) {
    m.Plus? ==> m.op.WrapAdd? || m.op.NatAdd?
  }

  function MovedBy(m: Move): int {
    match m
    case Plus(k, _, _, _) => k
    case Minus(k, _) => var d: int := k; 0 - d
    case Convert => 0
  }

  /** The expression after the moves, first move innermost. */
  function Built(v: Expr, moves: seq<Move>): Expr {
    if |moves| == 0 then v else Moved(Built(v, moves[..|moves| - 1]), moves[|moves| - 1])
  }

  function Distance(moves: seq<Move>): int {
    if |moves| == 0 then 0 else Distance(moves[..|moves| - 1]) + MovedBy(moves[|moves| - 1])
  }

  lemma {:induction false} BuiltNotConst(v: Expr, moves: seq<Move>)
    requires v.IsVar()
    ensures ConstOf(Built(v, moves)).None?
  {
    if |moves| > 0 {
      BuiltNotConst(v, moves[..|moves| - 1]);
    }
  }

  lemma ConstExprIs(k: i64, bare: bool)
    ensures ConstOf(ConstExpr(k, bare)) == Some(k)
  {
    assert ConstOf(Const(k)) == Some(k);
  }

  /** One move is peeled off. */
  lemma MovedGoes(e: Expr, m: Move, acc: i64)
    requires ConstOf(e).None? && IsSum(m)
    ensures CanonGo(Moved(e, m), acc) == CanonGo(e, WrapI(acc + MovedBy(m)))
  {
    hide WrapI, ConstOf;
    match m
    case Plus(k, op, left, bare) => ConstExprIs(k, bare);
    case Minus(k, bare) => ConstExprIs(k, bare);
    case Convert => WrapSame(acc);
  }

  lemma WrapSame(x: i64)
    ensures WrapI(x) == x
  {
  }

  lemma {:induction false} BuiltGoes(v: Expr, moves: seq<Move>, acc: i64)
    requires v.IsVar() && forall i :: 0 <= i < |moves| ==> IsSum(moves[i])
    ensures CanonGo(Built(v, moves), acc) == Some(Canon(VarRoot(v.name), WrapI(acc + Distance(moves))))
  {
    hide WrapI, Moved, MovedBy, IsSum, ConstOf;
    if |moves| == 0 {
      WrapSame(acc);
    } else {
      var init, m := moves[..|moves| - 1], moves[|moves| - 1];
      BuiltNotConst(v, init);
      MovedGoes(Built(v, init), m, acc);
      BuiltGoes(v, init, WrapI(acc + MovedBy(m)));
      WrapTwice(acc + MovedBy(m), Distance(init));
    }
  }

  /** Every sum of one variable and constants is recognised, however it is written: its root is the
      variable and its displacement the sum of the constants and the offset. */
  lemma SumsAreRecognised(v: Expr, moves: seq<Move>, off: i64)
    requires v.IsVar() && forall i :: 0 <= i < |moves| ==> IsSum(moves[i])
    ensures CanonAddr(Built(v, moves), off) == Canon(VarRoot(v.name), WrapI(off + Distance(moves)))
  {
    hide WrapI, CanonGo, Built, Distance;
    BuiltGoes(v, moves, off);
  }
}
