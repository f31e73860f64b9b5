/** The region clauses of a finished path: one per memory instruction, in order; and which of them
    name the address that the instruction accesses. */
module LiftClauses {
  import opened Words
  import opened Alu
  import opened SymExpr
  import opened SymModel
  import opened Branch
  import opened LiftSound
  import opened Lift
  import opened LiftInvariants
  import opened LiftRecords

  function ClauseAddr(c: Clause, env: Assignment): u64 {
    TermAddr(AddrTerm(c.base, c.off, 0), env)
  }

  function TouchAddr(t: Touch, env: Assignment): u64 {
    TermAddr(AddrTerm(t.base, t.off, 0), env)
  }

  /** An access of a path, and how far into a wide access the slot lies to which it resolved. */
  datatype Visit = Visit(touch: Touch, delta: nat)

  function StepVisits(insn: Insn, s: Sym): seq<Visit> {
    match Touched(insn, s)
    case Some(t) => [Visit(t, SlotDelta(s, t))]
    case None => []
  }

  function Visits(prog: seq<Insn>, st: State): seq<Visit> {
    if |prog| == 0 then [] else StepVisits(prog[0], st.s) + Visits(prog[1..], SymStep(prog[0], st))
  }

  /** The clause is the access's own, and names its address up to the slot's displacement. */
  ghost predicate Describes(c: Clause, v: Visit, env: Assignment) {
    c.width == v.touch.width && c.writable == v.touch.writable
    && TouchAddr(v.touch, env) == WrapU(ClauseAddr(c, env) + v.delta)
    && (ClauseAddr(c, env) == TouchAddr(v.touch, env) <==> v.delta == 0)
  }

  lemma WrapShift(x: int, d: nat)
    requires d < 8
    ensures WrapU(WrapU(x) + d) == WrapU(x + d)
    ensures WrapU(x + d) == WrapU(x) <==> d == 0
  {
  }

  lemma ClauseDescribes(s: Sym, t: Touch, env: Assignment)
    requires SlotDelta(s, t) < 8
    ensures Describes(ClauseOf(s, t), Visit(t, SlotDelta(s, t)), env)
  {
    hide Lookup, Mean, WrapU, ByBytes;
    match Resolved(s, t)
    case Some(i) =>
      var c := s.mem[i];
      LookupSound(s.mem, t.base, t.off, t.width, env);
      WrapShift(Mean(c.base, env) + c.off, c.delta);
    case None =>
      WrapShift(Mean(t.base, env) + t.off, 0);
  }

  lemma SlotDeltaSmall(s: Sym, t: Touch)
    requires Wf(s) && s.errors == []
    ensures SlotDelta(s, t) < 8
  {
    hide Lookup, NameInv, BoundInv, BytesShaped, AtomsMatch, SpanFor, Apart, ByBytes;
  }

  lemma {:induction false} ClausesDescribe(prog: seq<Insn>, st: State, env: Assignment)
    requires Wf(st.s) && SymRun(prog, st).s.errors == []
    ensures |Clauses(prog, st)| == |Visits(prog, st)|
    ensures forall i :: 0 <= i < |Visits(prog, st)| ==> Describes(Clauses(prog, st)[i], Visits(prog, st)[i], env)
  {
    hide Wf, SymStep, ClauseOf, SlotDelta, Touched, Describes, Grows;
    if |prog| > 0 {
      var st1 := SymStep(prog[0], st);
      StepWf(prog[0], st);
      ClausesDescribe(prog[1..], st1, env);
      ErrorsEarlier(prog, st);
      var t := Touched(prog[0], st.s);
      if t.Some? {
        SlotDeltaSmall(st.s, t.value);
        ClauseDescribes(st.s, t.value, env);
      }
      var cs, vs := StepClauses(prog[0], st.s), StepVisits(prog[0], st.s);
      assert |cs| == |vs| && forall i :: 0 <= i < |vs| ==> Describes(cs[i], vs[i], env);
      hide StepClauses, StepVisits;
    }
  }

  lemma ErrorsEarlier(prog: seq<Insn>, st: State)
    requires SymRun(prog, st).s.errors == []
    ensures st.s.errors == []
  {
    hide SymRun;
    RunGrows(prog, st);
  }

  /** The region clauses of every finished path are its memory accesses, in order, with width and
      direction. Clause `i` names the address of access `i` if and only if the access did not
      resolve to a later slot of a byte-granular access; otherwise it is short by the slot's
      displacement. */
  lemma ClauseNamesAddressIff(prog: seq<Insn>, hot: seq<Region>, splits: map<(Root, int), int>, env: Assignment)
    requires Clean(SymRun(prog, Start(hot, splits)).s)
    ensures var walk, visits := SymRun(prog, Start(hot, splits)).s.walk, Visits(prog, Start(hot, splits));
            |walk| == |visits| && forall i :: 0 <= i < |walk| ==> Describes(walk[i], visits[i], env)
  {
    hide SymRun, Clauses, Visits, Describes;
    RunRecords(prog, Start(hot, splits));
    StartWf(hot, splits);
    ClausesDescribe(prog, Start(hot, splits), env);
  }

  // ----- what the text alone decides -----

  /** The accesses of a path, in order. */
  function Accesses(prog: seq<Insn>): seq<(Width, bool)> {
    if |prog| == 0 then []
    else
      (match prog[0]
       case Ldx(w, _, _, _) => [(w, false)]
       case Stx(w, _, _, _) => [(w, true)]
       case StoreImm(w, _, _, _) => [(w, true)]
       case _ => [])
      + Accesses(prog[1..])
  }

  lemma {:induction false} VisitsAreAccesses(prog: seq<Insn>, st: State)
    ensures |Visits(prog, st)| == |Accesses(prog)|
    ensures forall i :: 0 <= i < |Accesses(prog)| ==>
              var t := Visits(prog, st)[i].touch; (t.width, t.writable) == Accesses(prog)[i]
  {
    hide SymStep, SlotDelta, ReadReg;
    if |prog| > 0 {
      VisitsAreAccesses(prog[1..], SymStep(prog[0], st));
      var vs := StepVisits(prog[0], st.s);
      var rest, more := Accesses(prog[1..]), Visits(prog[1..], SymStep(prog[0], st));
      assert Visits(prog, st) == vs + more;
      forall i | 0 <= i < |Accesses(prog)|
        ensures var t := Visits(prog, st)[i].touch; (t.width, t.writable) == Accesses(prog)[i]
      {
        if i >= |vs| {
          assert Accesses(prog)[i] == rest[i - |vs|] && (vs + more)[i] == more[i - |vs|];
        }
      }
    }
  }

  /** A finished path has exactly one region clause per memory instruction, in order, with the
      instruction's width and direction. */
  lemma OneClausePerAccess(prog: seq<Insn>, hot: seq<Region>, splits: map<(Root, int), int>)
    requires Clean(SymRun(prog, Start(hot, splits)).s)
    ensures var walk := SymRun(prog, Start(hot, splits)).s.walk;
            |walk| == |Accesses(prog)|
            && forall i :: 0 <= i < |walk| ==> (walk[i].width, walk[i].writable) == Accesses(prog)[i]
  {
    hide SymRun, Accesses, Clean, Visits;
    ClauseNamesAddressIff(prog, hot, splits, ZERO);
    VisitsAreAccesses(prog, Start(hot, splits));
    hide TouchAddr, ClauseAddr, WrapU;
  }

  // ----- the machine's addresses -----

  function MachineTouch(insn: Insn, k: Machine): seq<u64> {
    match insn
    case Ldx(_, _, src, off) => [WrapU(k.c.regs(src) + off)]
    case Stx(_, dst, off, _) => [WrapU(k.c.regs(dst) + off)]
    case StoreImm(_, dst, off, _) => [WrapU(k.c.regs(dst) + off)]
    case _ => []
  }

  /** The addresses the machine accesses on a path. */
  function MachineTouches(prog: seq<Insn>, k: Machine): seq<u64> {
    if |prog| == 0 then []
    else
      MachineTouch(prog[0], k)
      + match ConcStep(prog[0], k)
        case Some(k') => MachineTouches(prog[1..], k')
        case None => []
  }

  lemma StepTouch(insn: Insn, st: State, env: Assignment, c0: Conc, k: Machine)
    requires Rel(st, env, c0, k) && Hyp(SymStep(insn, st).s, env, c0)
    ensures match Touched(insn, st.s)
            case Some(t) => MachineTouch(insn, k) == [TouchAddr(t, env)]
            case None => MachineTouch(insn, k) == []
  {
    hide SymStep, Inv, Sim, Hyp, ReadReg, FramesAgree, Agrees;
    var t := Touched(insn, st.s);
    if t.Some? {
      BaseAgrees(insn, st, env, c0, k);
      AgreesMeans(t.value.base, env, k.c.regs(if insn.Ldx? then insn.src else insn.dst));
    }
  }

  lemma AgreesMeans(e: Expr, env: Assignment, x: u64)
    requires Agrees(e, env, x)
    ensures Mean(e, env) == x
  {
  }

  lemma BaseAgrees(insn: Insn, st: State, env: Assignment, c0: Conc, k: Machine)
    requires Rel(st, env, c0, k) && Hyp(SymStep(insn, st).s, env, c0)
    requires Touched(insn, st.s).Some?
    ensures Agrees(Touched(insn, st.s).value.base, env, k.c.regs(if insn.Ldx? then insn.src else insn.dst))
  {
    hide Inv, Sim, Hyp, ReadReg, WriteReg, FramesAgree, Agrees, ReadMemAt, WriteMemAt, Grows, StoredReg, StoredImm;
    var s' := SymStep(insn, st).s;
    if insn.Ldx? {
      var (s1, base) := ReadReg(st.s, insn.src);
      var (s2, raw) := ReadMemAt(s1, base, insn.off, insn.w);
      ReadMemAtGrows(s1, base, insn.off, insn.w);
      RegsGrow(s2, insn.dst, StoredReg(insn.w, raw));
      GrowsTransitive(s1, s2, s');
      HypMonotone(s1, s', env, c0);
      ReadRegSim(st.s, insn.src, env, c0, k.c);
    } else {
      var s1 := if insn.Stx? then ReadReg(st.s, insn.src).0 else st.s;
      var e := if insn.Stx? then StoredReg(insn.w, ReadReg(st.s, insn.src).1) else StoredImm(insn.w, insn.imm);
      var (s2, base) := ReadReg(s1, insn.dst);
      WriteMemAtGrows(s2, base, insn.off, insn.w, e);
      HypMonotone(s2, s', env, c0);
      if insn.Stx? {
        RegsGrow(s1, insn.dst, base);
        HypMonotone(s1, s2, env, c0);
        ReadRegSim(st.s, insn.src, env, c0, k.c);
      }
      ReadRegSim(s1, insn.dst, env, c0, k.c);
    }
  }

  lemma {:induction false} VisitsAreMachines(prog: seq<Insn>, st: State, env: Assignment, c0: Conc, k: Machine)
    requires Follows(prog, st, env, c0, k) && Hyp(SymRun(prog, st).s, env, c0)
    ensures |MachineTouches(prog, k)| == |Visits(prog, st)|
    ensures forall i :: 0 <= i < |Visits(prog, st)| ==> MachineTouches(prog, k)[i] == TouchAddr(Visits(prog, st)[i].touch, env)
  {
    hide SymStep, ConcStep, Rel, Hyp, SlotDelta, Touched, TouchAddr, MachineTouch, Grows;
    if |prog| > 0 {
      var st1 := SymStep(prog[0], st);
      RunGrows(prog[1..], st1);
      HypMonotone(st1.s, SymRun(prog, st).s, env, c0);
      StepTouch(prog[0], st, env, c0, k);
      VisitsAreMachines(prog[1..], st1, env, c0, ConcStep(prog[0], k).value);
      var vs, ms := StepVisits(prog[0], st.s), MachineTouch(prog[0], k);
      assert |ms| == |vs| && forall i :: 0 <= i < |vs| ==> ms[i] == TouchAddr(vs[i].touch, env);
      hide StepVisits;
    }
  }

  /** In machine terms: on a path that the machine follows, clause `i` names the address of the
      machine's `i`-th access if and only if that access did not resolve to a later slot. */
  lemma ClauseNamesMachineAddressIff(
    prog: seq<Insn>, hot: seq<Region>, splits: map<(Root, int), int>, env: Assignment, c0: Conc, i: nat)
    requires AllChecked(prog) && RunFits(prog, Start(hot, splits), env)
    requires Assumed(SymRun(prog, Start(hot, splits)), env, c0) && Clean(SymRun(prog, Start(hot, splits)).s)
    requires i < |SymRun(prog, Start(hot, splits)).s.walk|
    ensures |MachineTouches(prog, Machine(c0, []))| == |Visits(prog, Start(hot, splits))| == |SymRun(prog, Start(hot, splits)).s.walk|
    ensures ClauseAddr(SymRun(prog, Start(hot, splits)).s.walk[i], env) == MachineTouches(prog, Machine(c0, []))[i]
            <==> Visits(prog, Start(hot, splits))[i].delta == 0
  {
    hide SymRun, Visits, MachineTouches, Hyp, Rel, RunFits, AllChecked, Clean, Follows, SideHolds, HypHolds, TouchAddr, ClauseAddr;
    StartRelated(hot, splits, env, c0);
    FollowsIff(prog, Start(hot, splits), env, c0, Machine(c0, []));
    VisitsAreMachines(prog, Start(hot, splits), env, c0, Machine(c0, []));
    ClauseNamesAddressIff(prog, hot, splits, env);
  }
}
