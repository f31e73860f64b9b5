/** When the candidate table is complete: a hypothesis on one free variable whose other side is
    known is steered exactly when it can be true, with one exception. */
module BranchCandidates {
  import opened Words
  import opened SymExpr
  import opened Branch
  import opened UnionFind
  import opened BranchWitness
  import opened SolveShapes

  /** Both operands have a value, as far as there are two. */
  ghost predicate Decided(h: BranchHyp, env: Env) {
    Definable(h.dst, env) && (h.src.Some? ==> Definable(h.src.value, env)) && (h.kind.Reg64? ==> h.src.Some?)
  }

  /** A hypothesis is decided exactly when its operands have values, and then as the theorem's is. */
  lemma EvalBranchIff(h: BranchHyp, env: Env)
    ensures EvalBranch(h, env) == if Decided(h, env) then Some(HypHolds(h, Total(env))) else None
  {
    hide Eval, Definable, Mean, Total, Compare64, Compare32, WrapU;
    EvalIff(h.dst, env);
    if h.src.Some? {
      EvalIff(h.src.value, env);
    }
  }

  /** The value of the right-hand side: the immediate, or what the source operand already is. */
  function RightValue(h: BranchHyp, env: Env): Option<u64> {
    if h.src.Some? then Eval(h.src.value, env)
    else if h.kind.Reg64? then None
    else Some(WrapU(h.imm))
  }

  predicate Compares(kind: BranchKind, v: u64, r: u64) {
    if kind.Jmp32? then Compare32(kind.cond, v, r) else Compare64(kind.cond, v, r)
  }

  /** Some value of the variable makes the hypothesis true. */
  ghost predicate Satisfiable(h: BranchHyp, r: u64) {
    exists v: u64 :: Compares(h.kind, v, r) == h.taken
  }

  /** The hypothesis asks for a signed value below its right-hand side. */
  predicate SignedBelow(h: BranchHyp) {
    !h.kind.Jmp32? && ((h.kind.cond.Slt? && h.taken) || (h.kind.cond.Sge? && !h.taken))
  }

  /** A hypothesis on one free variable, as the walker records it. */
  ghost predicate OneFree(h: BranchHyp, env: Env) {
    h.dst.IsVar() && h.dst.name !in env && (h.kind.Imm64? ==> h.src.None?) && RightValue(h, env).Some?
  }

  // ----- what a candidate does -----

  lemma TrialBinds(h: BranchHyp, c: Candidate, b: bool, env: Env)
    requires OneFree(h, env)
    ensures var r := RightValue(h, env).value;
            Trial(h, c, b, env).ok <==> (h.src.Some? && c.src.Some? ==> c.src.value == r)
    ensures Trial(h, c, b, env).ok ==> Trial(h, c, b, env).env == env[h.dst.name := c.dst]
  {
    var env' := env[h.dst.name := c.dst];
    assert Solve(h.dst, c.dst, env) == Solved(true, env');
    if h.src.Some? {
      EvalMonotone(h.src.value, env, env');
      if c.src.Some? {
        KnownSolve(h.src.value, c.src.value, env);
        KnownSolve(h.src.value, c.src.value, env');
      }
    }
    hide Solve, Eval;
  }

  lemma KnownSolve(e: Expr, target: u64, env: Env)
    requires Eval(e, env).Some?
    ensures Solve(e, target, env) == Solved(Eval(e, env).value == target, env)
  {
  }

  lemma BoundTruth(h: BranchHyp, v: u64, env: Env)
    requires OneFree(h, env)
    ensures True(h, env[h.dst.name := v]) <==> Compares(h.kind, v, RightValue(h, env).value) == h.taken
  {
    hide Compare64, Compare32;
    var env' := env[h.dst.name := v];
    assert Eval(h.dst, env') == Some(v);
    if h.src.Some? {
      EvalMonotone(h.src.value, env, env');
    }
    hide Eval;
  }

  /** A candidate works when its value makes the comparison true, and the value it asks of a known
      source is the source's. */
  lemma WorksIff(h: BranchHyp, c: Candidate, b: bool, env: Env)
    requires OneFree(h, env)
    ensures var r := RightValue(h, env).value;
            Works(h, c, b, env)
            <==> (h.src.Some? && c.src.Some? ==> c.src.value == r) && Compares(h.kind, c.dst, r) == h.taken
  {
    hide Trial, True, Compares, RightValue, OneFree;
    TrialBinds(h, c, b, env);
    BoundTruth(h, c.dst, env);
  }

  // ----- the value that always does -----

  /** Where the value lies that works whenever any value does: at the right-hand side, next to it,
      or at 0. */
  datatype Step = Stay | Up | Down | Zero

  function StepOf(cond: Cond, taken: bool): Step {
    match cond
    case Eq => if taken then Stay else Up
    case Ne => if taken then Up else Stay
    case Gt => if taken then Up else Stay
    case Le => if taken then Stay else Up
    case Lt => if taken then Down else Stay
    case Ge => if taken then Stay else Down
    case Set => if taken then Stay else Zero
    case Sgt => if taken then Up else Stay
    case Sle => if taken then Stay else Up
    case Slt => if taken then Down else Stay
    case Sge => if taken then Stay else Down
  }

  function StepFrom(step: Step, r: u64): u64 {
    match step
    case Stay => r
    case Up => WrapU(r + 1)
    case Down => WrapU(r - 1)
    case Zero => 0
  }

  function Pick(cond: Cond, taken: bool, r: u64): u64 {
    StepFrom(StepOf(cond, taken), r)
  }

  lemma {:induction false} AndZero(x: nat, n: nat)
    ensures Bits(BitAnd, x, 0, n) == 0 && Bits(BitAnd, 0, x, n) == 0
  {
    if n > 0 {
      AndZero(x / 2, n - 1);
    }
  }

  lemma {:induction false} AndSelf(x: nat, n: nat)
    requires x < Pow2(n)
    ensures Bits(BitAnd, x, x, n) == x
  {
    if n > 0 {
      AndSelf(x / 2, n - 1);
    }
  }

  lemma AndWords(v: u64, r: u64)
    ensures Bitwise(BitAnd, v, 0) == 0 && Bitwise(BitAnd, 0, v) == 0 && Bitwise(BitAnd, r, r) == r
  {
    Pow2Values();
    AndZero(v, 64);
    AndSelf(r, 64);
  }

  lemma PickWorks64(cond: Cond, taken: bool, r: u64, v: u64)
    requires Compare64(cond, v, r) == taken
    ensures Compare64(cond, Pick(cond, taken, r), r) == taken
  {
    AndWords(v, r);
    AndWords(r, r);
    hide Bitwise;
  }

  lemma LowUp(r: u64)
    ensures WrapU(r + 1) % TWO32 == (r % TWO32 + 1) % TWO32
  {
  }

  lemma LowDown(r: u64)
    ensures WrapU(r - 1) % TWO32 == (r % TWO32 - 1) % TWO32
  {
  }

  lemma SignedNeighbours32(r: u64)
    ensures r % TWO32 != 0x7fff_ffff ==> Signed32(WrapU(r + 1)) == Signed32(r) + 1
    ensures r % TWO32 != 0x8000_0000 ==> Signed32(WrapU(r - 1)) == Signed32(r) - 1
    ensures -0x8000_0000 <= Signed32(r) < 0x8000_0000
    ensures (Signed32(r) == 0x7fff_ffff <==> r % TWO32 == 0x7fff_ffff)
            && (Signed32(r) == -0x8000_0000 <==> r % TWO32 == 0x8000_0000)
  {
    LowUp(r);
    LowDown(r);
    hide WrapU;
  }

  lemma PickWorksSigned32(cond: Cond, taken: bool, r: u64, v: u64)
    requires (cond.Sgt? || cond.Sge? || cond.Slt? || cond.Sle?) && Compare32(cond, v, r) == taken
    ensures Compare32(cond, Pick(cond, taken, r), r) == taken
  {
    SignedNeighbours32(r);
    SignedNeighbours32(v);
    hide WrapU, Signed32;
  }

  /** The same step on 32-bit words. */
  function LowStep(step: Step, l: u64): u64
    requires l < TWO32
  {
    match step
    case Stay => l
    case Up => if l == TWO32 - 1 then 0 else l + 1
    case Down => if l == 0 then TWO32 - 1 else l - 1
    case Zero => 0
  }

  lemma LowStepOf(step: Step, r: u64)
    ensures StepFrom(step, r) % TWO32 == LowStep(step, r % TWO32)
  {
    LowUp(r);
    LowDown(r);
    hide WrapU;
  }

  lemma PickWorksLow(cond: Cond, taken: bool, l: u64, w: u64)
    requires l < TWO32 && w < TWO32 && !(cond.Sgt? || cond.Sge? || cond.Slt? || cond.Sle?)
    requires Compare64(cond, w, l) == taken
    ensures Compare64(cond, LowStep(StepOf(cond, taken), l), l) == taken
  {
    AndWords(w, l);
    AndWords(l, l);
    hide Bitwise;
  }

  lemma PickWorksUnsigned32(cond: Cond, taken: bool, r: u64, v: u64)
    requires !(cond.Sgt? || cond.Sge? || cond.Slt? || cond.Sle?) && Compare32(cond, v, r) == taken
    ensures Compare32(cond, Pick(cond, taken, r), r) == taken
  {
    hide Compare64, StepFrom, StepOf, LowStep;
    LowStepOf(StepOf(cond, taken), r);
    PickWorksLow(cond, taken, r % TWO32, v % TWO32);
  }

  lemma PickWorks32(cond: Cond, taken: bool, r: u64, v: u64)
    requires Compare32(cond, v, r) == taken
    ensures Compare32(cond, Pick(cond, taken, r), r) == taken
  {
    hide Compare32, Pick;
    if cond.Sgt? || cond.Sge? || cond.Slt? || cond.Sle? {
      PickWorksSigned32(cond, taken, r, v);
    } else {
      PickWorksUnsigned32(cond, taken, r, v);
    }
  }

  // ----- the table has it -----

  lemma {:induction false} WithoutKeeps(cs: seq<Candidate>, v: u64, c: Candidate)
    requires c in cs && c.dst != v
    ensures c in Without(cs, v)
  {
    if cs[0] != c {
      WithoutKeeps(cs[1..], v, c);
    }
  }

  /** There is room for the picked value. */
  predicate Room(cond: Cond, taken: bool, r: u64) {
    (((cond.Lt? || cond.Slt?) && taken) || ((cond.Ge? || cond.Sge?) && !taken) ==> r > 0)
    && (cond.Set? && taken ==> r != 0)
  }

  lemma HasRoom(cond: Cond, taken: bool, r: u64, v: u64)
    requires Compare64(cond, v, r) == taken
    requires !(((cond.Slt? && taken) || (cond.Sge? && !taken)) && r == 0)
    ensures Room(cond, taken, r)
  {
    AndWords(v, v);
    hide Bitwise;
  }

  lemma ImmHasPick(cond: Cond, taken: bool, imm: u64)
    requires Room(cond, taken, imm)
    ensures Only(Pick(cond, taken, imm)) in ImmCandidates(cond, taken, imm)
  {
    var cs := ImmCandidates(cond, taken, imm);
    if (cond.Eq? && !taken) || (cond.Ne? && taken) {
      assert Only(imm + 1) == Only(WrapU(imm + 1)) && WrapU(imm + 1) != imm;
      WithoutKeeps([Only(imm + 1), Only(imm - 1), Only(0), Only(1), Only(2), Only(3)], imm, Only(imm + 1));
    } else if ((cond.Gt? || cond.Sgt?) && !taken) || ((cond.Le? || cond.Sle?) && taken)
              || ((cond.Lt? || cond.Slt?) && taken) || ((cond.Ge? || cond.Sge?) && !taken) {
      assert cs[1] == Only(Pick(cond, taken, imm));
    } else {
      assert cs[0] == Only(Pick(cond, taken, imm));
    }
  }

  lemma RegHasPick(cond: Cond, taken: bool, dv: Option<u64>, r: u64)
    requires Room(cond, taken, r)
    ensures Only(Pick(cond, taken, r)) in RegCandidates(cond, taken, dv, Some(r))
  {
    var cs := RegCandidates(cond, taken, dv, Some(r));
    assert cs[0] == Only(Pick(cond, taken, r));
  }

  lemma NearHasPick(cond: Cond, taken: bool, r: u64)
    ensures Only(Pick(cond, taken, r)) in NearCandidates(r, false)
  {
    var cs := NearCandidates(r, false);
    assert cs[0] == Only(r) && cs[1] == Only(r + 1) && cs[2] == Only(r - 1) && cs[3] == Only(0);
    hide NearCandidates;
    assert Only(WrapU(r + 1)) == Only(r + 1) && Only(WrapU(r - 1)) == Only(r - 1);
  }

  lemma TableHasPick(h: BranchHyp, env: Env)
    requires OneFree(h, env) && Satisfiable(h, RightValue(h, env).value)
    requires !(SignedBelow(h) && RightValue(h, env).value == 0)
    ensures Only(Pick(h.kind.cond, h.taken, RightValue(h, env).value)) in Candidates(h, env)
  {
    hide ImmCandidates, RegCandidates, NearCandidates, Pick, Compare64, Compare32, Room;
    var r := RightValue(h, env).value;
    var v: u64 :| Compares(h.kind, v, r) == h.taken;
    match h.kind
    case Imm64(cond) =>
      HasRoom(cond, h.taken, r, v);
      ImmHasPick(cond, h.taken, r);
    case Reg64(cond) =>
      HasRoom(cond, h.taken, r, v);
      RegHasPick(cond, h.taken, Eval(h.dst, env), r);
    case Jmp32(cond) => NearHasPick(cond, h.taken, r);
  }

  lemma PickWorks(h: BranchHyp, r: u64)
    requires Satisfiable(h, r)
    ensures Compares(h.kind, Pick(h.kind.cond, h.taken, r), r) == h.taken
  {
    hide Compare64, Compare32, Pick;
    var v: u64 :| Compares(h.kind, v, r) == h.taken;
    if h.kind.Jmp32? {
      PickWorks32(h.kind.cond, h.taken, r, v);
    } else {
      PickWorks64(h.kind.cond, h.taken, r, v);
    }
  }

  /** Below a right-hand side of 0 the table has nothing to offer. */
  lemma BelowZero(h: BranchHyp, env: Env, c: Candidate)
    requires OneFree(h, env) && SignedBelow(h) && RightValue(h, env) == Some(0) && c in Candidates(h, env)
    ensures h.src.Some? && c.src == Some(1)
  {
  }

  /** Exactly when the table offers a candidate that works: the hypothesis can be true at all, and
      it does not ask for a signed value below 0. */
  lemma SolvableIff(h: BranchHyp, env: Env)
    requires OneFree(h, env)
    ensures var r := RightValue(h, env).value;
            SomeWorks(h, Candidates, env) <==> Satisfiable(h, r) && !(SignedBelow(h) && r == 0)
  {
    hide Works, Candidates, Compares, RightValue, Pick, SignedBelow;
    var r := RightValue(h, env).value;
    if SomeWorks(h, Candidates, env) {
      var c, b :| c in Candidates(h, env) && Works(h, c, b, env);
      WorksIff(h, c, b, env);
      if SignedBelow(h) && r == 0 {
        BelowZero(h, env, c);
      }
    }
    if Satisfiable(h, r) && !(SignedBelow(h) && r == 0) {
      var c := Only(Pick(h.kind.cond, h.taken, r));
      TableHasPick(h, env);
      PickWorks(h, r);
      WorksIff(h, c, false, env);
    }
  }

  const NEGATIVE: BranchHyp := BranchHyp(Imm64(Slt), InitReg(RegOld(2)), None, 0, true)

  /** The exception is real: `r2 < 0`, signed, is true of 2^64 - 1 and gets no candidate. */
  lemma NegativeMissed()
    ensures True(NEGATIVE, map[RegOld(2) := TWO64 - 1]) && Candidates(NEGATIVE, map[]) == []
    ensures !SomeWorks(NEGATIVE, Candidates, map[])
  {
  }
}
