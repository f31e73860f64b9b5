/** Path hypotheses: the conditional jumps of a walked path. */
module Branch {
  import opened Words
  import opened SymExpr

  datatype Cond = Eq | Ne | Gt | Ge | Lt | Le | Set | Sgt | Sge | Slt | Sle

  /** The immediate and register forms of the 64-bit jumps, and the 32-bit jumps. */
  datatype BranchKind = Imm64(cond: Cond) | Reg64(cond: Cond) | Jmp32(cond: Cond)

  datatype BranchHyp = BranchHyp(kind: BranchKind, dst: Expr, src: Option<Expr>, imm: i64, taken: bool)

  function Signed32(v: u64): int {
    var low := v % TWO32;
    if low < 0x8000_0000 then low else low - TWO32
  }

  predicate Compare64(cond: Cond, a: u64, b: u64) {
    match cond
    case Eq => a == b
    case Ne => a != b
    case Gt => a > b
    case Ge => a >= b
    case Lt => a < b
    case Le => a <= b
    case Set => Bitwise(BitAnd, a, b) != 0
    case Sgt => Signed64(a) > Signed64(b)
    case Sge => Signed64(a) >= Signed64(b)
    case Slt => Signed64(a) < Signed64(b)
    case Sle => Signed64(a) <= Signed64(b)
  }

  /** The same comparisons on the low 32 bits. */
  predicate Compare32(cond: Cond, a: u64, b: u64) {
    match cond
    case Sgt => Signed32(a) > Signed32(b)
    case Sge => Signed32(a) >= Signed32(b)
    case Slt => Signed32(a) < Signed32(b)
    case Sle => Signed32(a) <= Signed32(b)
    case _ => Compare64(cond, a % TWO32, b % TWO32)
  }

  /** A hypothesis under an assignment; undefined when an operand is. */
  function EvalBranch(h: BranchHyp, env: Env): Option<bool> {
    var dv := Eval(h.dst, env);
    var sv := if h.src.Some? then Eval(h.src.value, env) else None;
    if dv.None? || (h.src.Some? && sv.None?) then None
    else
      match h.kind
      case Imm64(c) => Some(Compare64(c, dv.value, WrapU(h.imm)) == h.taken)
      case Reg64(c) => if sv.None? then None else Some(Compare64(c, dv.value, sv.value) == h.taken)
      case Jmp32(c) =>
        Some(Compare32(c, dv.value, if sv.Some? then sv.value else WrapU(h.imm)) == h.taken)
  }

  /** A hypothesis decided by an assignment is decided the same way by every extension. */
  lemma EvalBranchMonotone(h: BranchHyp, env: Env, env': Env)
    requires Extends(env, env')
    ensures EvalBranch(h, env).Some? ==> EvalBranch(h, env') == EvalBranch(h, env)
  {
    hide Compare64, Compare32, Eval;
    EvalMonotone(h.dst, env, env');
    if h.src.Some? {
      EvalMonotone(h.src.value, env, env');
    }
  }

  /** The hypothesis as the emitted theorem states it, under a full assignment. */
  predicate HypHolds(h: BranchHyp, env: Assignment) {
    var x := Mean(h.dst, env);
    var y := if h.src.Some? then Mean(h.src.value, env) else WrapU(h.imm);
    match h.kind
    case Imm64(c) => Compare64(c, x, WrapU(h.imm)) == h.taken
    case Reg64(c) => Compare64(c, x, y) == h.taken
    case Jmp32(c) => Compare32(c, x, y) == h.taken
  }

  /** What the witness search decides is what the theorem says. */
  lemma EvalBranchMeans(h: BranchHyp, env: Env, full: Assignment)
    requires forall n :: n in env ==> full(n) == env[n]
    ensures EvalBranch(h, env).Some? ==> EvalBranch(h, env) == Some(HypHolds(h, full))
  {
    hide Compare64, Compare32, Eval, Mean, WrapU;
    MeanExtends(h.dst, env, full);
    if h.src.Some? {
      MeanExtends(h.src.value, env, full);
    }
  }
}
