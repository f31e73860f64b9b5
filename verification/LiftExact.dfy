/** The recorded hypotheses ask no more than the path needs: they hold exactly when the machine takes
    the path and every reloaded value fits the width of its load. */
module LiftExact {
  import opened Words
  import opened Alu
  import opened SymExpr
  import opened SymModel
  import opened Branch
  import opened LiftSound
  import opened Lift
  import opened LiftInvariants
  import opened LiftCoverage

  /** The recorded side conditions and path hypotheses hold. */
  ghost predicate Held(st: State, env: Assignment) {
    (forall i :: 0 <= i < |st.side| ==> SideHolds(st.side[i], env))
    && (forall i :: 0 <= i < |st.branches| ==> HypHolds(st.branches[i], env))
  }

  lemma HeldMore(st: State, st': State, env: Assignment)
    requires Held(st, env) && st.side <= st'.side && st.branches <= st'.branches
    ensures Held(st', env)
            <==> (forall i :: |st.side| <= i < |st'.side| ==> SideHolds(st'.side[i], env))
                 && (forall i :: |st.branches| <= i < |st'.branches| ==> HypHolds(st'.branches[i], env))
  {
    hide SideHolds, HypHolds;
    forall i | 0 <= i < |st.side|
      ensures SideHolds(st'.side[i], env)
    {
      assert st'.side[i] == st.side[i];
    }
    forall i | 0 <= i < |st.branches|
      ensures HypHolds(st'.branches[i], env)
    {
      assert st'.branches[i] == st.branches[i];
    }
  }

  lemma HeldEarlier(st: State, st': State, env: Assignment)
    requires Held(st', env) && st.side <= st'.side && st.branches <= st'.branches
    ensures Held(st, env)
  {
    hide SideHolds, HypHolds;
    forall i | 0 <= i < |st.side|
      ensures SideHolds(st.side[i], env)
    {
      assert st'.side[i] == st.side[i];
    }
    forall i | 0 <= i < |st.branches|
      ensures HypHolds(st.branches[i], env)
    {
      assert st'.branches[i] == st.branches[i];
    }
  }

  lemma HeldBranch(st: State, st': State, h: BranchHyp, env: Assignment)
    requires Held(st, env) && st'.side == st.side && st'.branches == st.branches + [h]
    ensures Held(st', env) <==> HypHolds(h, env)
  {
    hide SideHolds, HypHolds, Held;
    HeldMore(st, st', env);
    assert st'.branches[|st.branches|] == h;
  }

  ghost predicate AllHold(hyps: seq<SideHyp>, env: Assignment) {
    forall i :: 0 <= i < |hyps| ==> SideHolds(hyps[i], env)
  }

  lemma HeldSides(st: State, st': State, more: seq<SideHyp>, env: Assignment)
    requires Held(st, env) && st'.side == st.side + more && st'.branches == st.branches
    ensures Held(st', env) <==> AllHold(more, env)
  {
    hide SideHolds, HypHolds, Held;
    HeldMore(st, st', env);
    if Held(st', env) {
      forall i | 0 <= i < |more|
        ensures SideHolds(more[i], env)
      {
        assert st'.side[|st.side| + i] == more[i];
      }
    }
  }

  // ----- jumps and divisions -----

  /** The hypothesis recorded for a jump is the machine's own decision, no more and no less. */
  lemma JumpHypIff(wide: bool, cond: Cond, a: Expr, b: Expr, rhs: Operand, taken: bool, x: u64, c: Conc, env: Assignment)
    requires Agrees(a, env, x) && Agrees(b, env, OperandValue(rhs, c))
    ensures var y := OperandValue(rhs, c);
            HypHolds(JumpHyp(wide, cond, a, b, rhs, taken), env)
            <==> (if wide then Compare64(cond, x, y) else Compare32(cond, x, y)) == taken
  {
    hide Compare64, Compare32, WrapU, Mean;
  }

  lemma JumpExact(insn: Insn, st: State, env: Assignment, c0: Conc, k: Machine)
    requires insn.Jump? && Rel(st, env, c0, k) && Held(st, env) && Hyp(SymStep(insn, st).s, env, c0)
    ensures ConcStep(insn, k).Some? <==> Held(SymStep(insn, st), env)
  {
    hide Grows, Inv, Sim, Hyp, ReadReg, ReadOperand, FramesAgree, Agrees, SideHolds, HypHolds, Held,
      Compare64, Compare32, JumpHyp, OperandValue;
    var Jump(wide, cond, dst, rhs, taken) := insn;
    var (s1, a) := ReadReg(st.s, dst);
    var (s2, b) := ReadOperand(s1, rhs);
    OperandsSim(st.s, dst, rhs, env, c0, k.c);
    var st' := SymStep(insn, st);
    HeldBranch(st, st', JumpHyp(wide, cond, a, b, rhs, taken), env);
    JumpHypIff(wide, cond, a, b, rhs, taken, k.c.regs(dst), k.c, env);
  }

  lemma DivisorIff(b: Expr, size: Size, y: u64, env: Assignment)
    requires Agrees(b, env, y)
    ensures SideHolds(NonZero(b, size), env) <==> Divisor(size, y) != 0
  {
  }

  lemma AluExact(insn: Insn, st: State, env: Assignment, c0: Conc, k: Machine)
    requires insn.Alu? && Checked(insn) && Rel(st, env, c0, k) && Held(st, env) && Hyp(SymStep(insn, st).s, env, c0)
    ensures ConcStep(insn, k).Some? <==> Held(SymStep(insn, st), env)
  {
    hide Grows, Inv, Sim, Hyp, ReadReg, ReadOperand, WriteReg, AluExpr, AluValue, FramesAgree, Agrees, SideHolds, HypHolds,
      Held, WrapU, Divisor;
    var Alu(size, op, dst, rhs) := insn;
    var (s1, a) := ReadReg(st.s, dst);
    var (s2, b) := ReadOperand(s1, rhs);
    RegsGrow(s2, dst, AluExpr(size, op, a, b, rhs));
    HypMonotone(s2, SymStep(insn, st).s, env, c0);
    OperandsSim(st.s, dst, rhs, env, c0, k.c);
    var st' := SymStep(insn, st);
    HeldSides(st, st', DivideHyps(size, op, b, rhs), env);
    assert DivideHyps(size, op, b, rhs) != [] ==> DivideHyps(size, op, b, rhs)[0] == NonZero(b, size);
    DivisorIff(b, size, OperandValue(rhs, k.c), env);
  }

  // ----- loads -----

  /** The value a wide load finds fits the width of the load. */
  ghost predicate LoadFits(insn: Insn, st: State, env: Assignment) {
    insn.Ldx? && !insn.w.Byte? ==> Mean(ReadMem(st.s, insn.src, insn.off, insn.w).1, env) < Pow256(Len(insn.w))
  }

  /** A load's symbolic result is the loaded word exactly when its value fits; and that is exactly
      what the recorded condition, or for a bare variable `StepFits`, says. */
  lemma LoadExactly(w: Width, raw: Expr, start: u64, env: Assignment, m: Memory)
    requires Loaded(raw, start, Len(w), env, m)
    ensures var fits := w.Byte? || Mean(raw, env) < Pow256(Len(w));
            (Agrees(StoredReg(w, raw), env, LoadWord(m, start, Len(w))) <==> fits)
            && (fits <==> ReloadHolds(w, raw, env)
                          && ((w.Halfword? || w.Word?) && raw.InitMem? ==> Mean(raw, env) < Pow256(Len(w))))
  {
    hide Pow2, Pow256, WrapU, Holds, Read;
    var v := Mean(raw, env);
    ReadHolds(m, start, Len(w), v);
    BitsAreBytes(w);
    Pow256Values();
    FitsIff(v, Pow256(Len(w)));
    var hyps := ReloadHyps(w, raw);
    assert hyps != [] ==> hyps == [Fits(raw, 8 * Len(w))] && hyps[0] == Fits(raw, 8 * Len(w));
  }

  lemma LdxExact(insn: Insn, st: State, env: Assignment, c0: Conc, k: Machine)
    requires insn.Ldx? && Rel(st, env, c0, k) && Held(st, env)
    requires Hyp(SymStep(insn, st).s, env, c0) && Clean(SymStep(insn, st).s)
    ensures LoadFits(insn, st, env) <==> Held(SymStep(insn, st), env) && StepFits(insn, st, env)
  {
    hide Grows, Inv, Sim, PreHolds, WriteReg, ReadMem, WrapU, Mean, Loaded, FramesAgree, Agrees, LoadWord, BoundsHold,
      SideHolds, HypHolds, NarrowFits, StoredReg, Pow256, Held, ReloadHyps;
    var Ldx(w, dst, src, off) := insn;
    var (s1, raw) := ReadMem(st.s, src, off, w);
    var s' := WriteReg(s1, dst, StoredReg(w, raw));
    RegsGrow(s1, dst, StoredReg(w, raw));
    HypMonotone(s1, s', env, c0);
    CleanMonotone(s1, s');
    ReadMemSim(st.s, src, off, w, env, c0, k.c);
    LoadExactly(w, raw, WrapU(k.c.regs(src) + off), env, k.c.mem);
    NarrowFitsMeans(st.s, src, off, w, env);
    HeldSides(st, SymStep(insn, st), ReloadHyps(w, raw), env);
  }

  // ----- whole paths -----

  /** Only jumps, divisions and loads record a hypothesis. */
  lemma OthersRecordNone(insn: Insn, st: State)
    requires !insn.Jump? && !insn.Alu? && !insn.Ldx?
    ensures SymStep(insn, st).side == st.side && SymStep(insn, st).branches == st.branches
  {
    hide ReadReg, WriteReg, ReadMem, WriteMem, ReadOperand, ReadSaved, RestoreSym, TextExpr;
  }

  lemma OthersRun(insn: Insn, k: Machine)
    requires !insn.Jump? && !insn.Alu?
    ensures ConcStep(insn, k).Some?
  {
  }

  /** One instruction: the machine takes it with a fitting load exactly when what it recorded holds. */
  lemma StepExact(insn: Insn, st: State, env: Assignment, c0: Conc, k: Machine)
    requires Checked(insn) && Rel(st, env, c0, k) && Held(st, env)
    requires Hyp(SymStep(insn, st).s, env, c0) && Clean(SymStep(insn, st).s)
    ensures ConcStep(insn, k).Some? && LoadFits(insn, st, env)
            <==> Held(SymStep(insn, st), env) && StepFits(insn, st, env)
    ensures ConcStep(insn, k).Some? && LoadFits(insn, st, env) ==>
              Rel(SymStep(insn, st), env, c0, ConcStep(insn, k).value)
  {
    hide Rel, Hyp, NarrowFits, SymStep, ConcStep, SideHolds, HypHolds, ReadMem, Clean, Checked;
    if insn.Jump? {
      JumpExact(insn, st, env, c0, k);
    } else if insn.Alu? {
      AluExact(insn, st, env, c0, k);
    } else {
      OthersRun(insn, k);
      if insn.Ldx? {
        LdxExact(insn, st, env, c0, k);
      } else {
        OthersRecordNone(insn, st);
      }
    }
    if Held(SymStep(insn, st), env) && StepFits(insn, st, env) {
      assert Assumed(SymStep(insn, st), env, c0);
      StepSound(insn, st, env, c0, k);
    }
  }

  ghost predicate RunLoadsFit(prog: seq<Insn>, st: State, env: Assignment) {
    |prog| > 0 ==> LoadFits(prog[0], st, env) && RunLoadsFit(prog[1..], SymStep(prog[0], st), env)
  }

  lemma {:induction false} RunExact(prog: seq<Insn>, st: State, env: Assignment, c0: Conc, k: Machine)
    requires AllChecked(prog) && Rel(st, env, c0, k) && Held(st, env)
    requires Hyp(SymRun(prog, st).s, env, c0) && Clean(SymRun(prog, st).s)
    ensures ConcRun(prog, k).Some? && RunLoadsFit(prog, st, env)
            <==> Held(SymRun(prog, st), env) && RunFits(prog, st, env)
  {
    hide Rel, Hyp, StepFits, LoadFits, Clean, SymStep, ConcStep, Grows, Checked, Held;
    if |prog| > 0 {
      var st1 := SymStep(prog[0], st);
      RunGrows(prog[1..], st1);
      HypMonotone(st1.s, SymRun(prog, st).s, env, c0);
      CleanMonotone(st1.s, SymRun(prog, st).s);
      StepExact(prog[0], st, env, c0, k);
      if ConcStep(prog[0], k).Some? && LoadFits(prog[0], st, env) {
        RunExact(prog[1..], st1, env, c0, ConcStep(prog[0], k).value);
      } else if Held(SymRun(prog, st), env) {
        HeldEarlier(st1, SymRun(prog, st), env);
      }
    }
  }

  /** The recorded hypotheses are exact. On every finished path, from every concrete state and
      assignment satisfying the precondition, the machine takes the path and every load fits if and
      only if every recorded path hypothesis, divisor and reload condition holds and bare variables
      fit their narrow loads. */
  lemma HypothesesExact(prog: seq<Insn>, hot: seq<Region>, splits: map<(Root, int), int>, env: Assignment, c0: Conc)
    requires AllChecked(prog) && Clean(SymRun(prog, Start(hot, splits)).s)
    requires Hyp(SymRun(prog, Start(hot, splits)).s, env, c0)
    ensures ConcRun(prog, Machine(c0, [])).Some? && RunLoadsFit(prog, Start(hot, splits), env)
            <==> Held(SymRun(prog, Start(hot, splits)), env) && RunFits(prog, Start(hot, splits), env)
  {
    hide SymRun, ConcRun, RunLoadsFit, RunFits, Hyp, Clean, AllChecked, SideHolds, HypHolds;
    StartRelated(hot, splits, env, c0);
    RunExact(prog, Start(hot, splits), env, c0, Machine(c0, []));
  }

  /** In terms of machine states alone: from a state in which cells on different roots do not
      overlap, the machine takes the path with fitting loads exactly when its observed values satisfy
      everything recorded. */
  lemma ObservedExact(prog: seq<Insn>, hot: seq<Region>, splits: map<(Root, int), int>, c0: Conc)
    requires AllChecked(prog) && Clean(SymRun(prog, Start(hot, splits)).s)
    requires var s := SymRun(prog, Start(hot, splits)).s;
             AcrossRoots(s.mem, Observe(s.pre, c0)) && forall i :: 0 <= i < |s.mem| ==> Bounded(s.mem[i])
    ensures var env := Observe(SymRun(prog, Start(hot, splits)).s.pre, c0);
            ConcRun(prog, Machine(c0, [])).Some? && RunLoadsFit(prog, Start(hot, splits), env)
            <==> Held(SymRun(prog, Start(hot, splits)), env) && RunFits(prog, Start(hot, splits), env)
  {
    hide SymRun, ConcRun, Observe, AcrossRoots, Bounded, RunLoadsFit, RunFits, Hyp, AllChecked, Held;
    ObservedPrecondition(prog, hot, splits, c0);
    HypothesesExact(prog, hot, splits, Observe(SymRun(prog, Start(hot, splits)).s.pre, c0), c0);
  }
}
