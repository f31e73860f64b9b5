/** Lifting a path: the data effect of each instruction on the symbolic state and on the
    concrete machine, and the triple the lifter emits for the whole path. */
module Lift {
  import opened Words
  import opened Alu
  import opened SymExpr
  import opened SymModel
  import opened Branch
  import opened LiftSound

  datatype Operand = ImmOp(imm: i64) | RegOp(reg: Reg)

  /** Instructions of a walked path; a conditional jump carries the walker's decision. */
  datatype Insn =
    | Ldx(w: Width, dst: Reg, src: Reg, off: Off)
    | Stx(w: Width, dst: Reg, off: Off, src: Reg)
    | StoreImm(w: Width, dst: Reg, off: Off, imm: i64)
    | Mov(dst: Reg, rhs: Operand)
    | Alu(size: Size, op: AluOp, dst: Reg, rhs: Operand)
    | Negate(size: Size, dst: Reg)
    | Endian(dst: Reg, bytes: nat, big: bool)
    | Jump(wide: bool, cond: Cond, dst: Reg, rhs: Operand, taken: bool)
    | Ja
    | CallLocal
    | Return

  // ----- the concrete machine -----

  /** The register file, memory, and the saved r6..r10 of each active call. */
  datatype Machine = Machine(c: Conc, frames: seq<seq<u64>>)

  function OperandValue(rhs: Operand, c: Conc): u64 {
    match rhs
    case ImmOp(imm) => WrapU(imm)
    case RegOp(r) => c.regs(r)
  }

  function PutReg(k: Machine, r: Reg, v: u64): Machine {
    k.(c := k.c.(regs := SetReg(k.c.regs, r, v)))
  }

  function PutMem(k: Machine, a: int, n: nat, v: u64): Machine {
    k.(c := k.c.(mem := Write(k.c.mem, WrapU(a), n, v)))
  }

  function LoadWord(m: Memory, start: u64, n: nat): (v: u64)
    requires n <= 8
  {
    LeValueFits(BytesAt(m, start, n));
    Read(m, start, n)
  }

  /** The bytecode verifier rejects division by a zero immediate and odd conversion widths. */
  predicate Checked(insn: Insn) {
    match insn
    case Alu(size, op, _, ImmOp(imm)) => Divides(op) ==> Divisor(size, WrapU(imm)) != 0
    case Endian(_, bytes, _) => bytes == 2 || bytes == 4 || bytes == 8
    case _ => true
  }

  /** One instruction; `None` when a conditional jump goes the other way or a divisor is zero. */
  function ConcStep(insn: Insn, k: Machine): Option<Machine> {
    match insn
    case Ldx(w, dst, src, off) =>
      Some(PutReg(k, dst, LoadWord(k.c.mem, WrapU(k.c.regs(src) + off), Len(w))))
    case Stx(w, dst, off, src) => Some(PutMem(k, k.c.regs(dst) + off, Len(w), k.c.regs(src)))
    case StoreImm(w, dst, off, imm) => Some(PutMem(k, k.c.regs(dst) + off, Len(w), WrapU(imm)))
    case Mov(dst, rhs) => Some(PutReg(k, dst, OperandValue(rhs, k.c)))
    case Alu(size, op, dst, rhs) =>
      var (x, y) := (k.c.regs(dst), OperandValue(rhs, k.c));
      if Divides(op) && Divisor(size, y) == 0 then None else Some(PutReg(k, dst, AluValue(size, op, x, y)))
    case Negate(size, dst) => Some(PutReg(k, dst, AluValue(size, Neg, k.c.regs(dst), k.c.regs(dst))))
    case Endian(dst, bytes, big) =>
      Some(if bytes <= 8 then PutReg(k, dst, EndianValue(k.c.regs(dst), bytes, big)) else k)
    case Jump(wide, cond, dst, rhs, taken) =>
      var (x, y) := (k.c.regs(dst), OperandValue(rhs, k.c));
      if (if wide then Compare64(cond, x, y) else Compare32(cond, x, y)) == taken then Some(k) else None
    case Ja => Some(k)
    case CallLocal =>
      var r := k.c.regs;
      Some(PutReg(k.(frames := k.frames + [[r(6), r(7), r(8), r(9), r(10)]]), 10, WrapU(r(10) + 0x1000)))
    case Return =>
      var n := |k.frames|;
      if n == 0 || |k.frames[n - 1]| != 5 then Some(k)
      else Some(RestoreConc(k.(frames := k.frames[..n - 1]), k.frames[n - 1], 0))
  }

  function RestoreConc(k: Machine, saved: seq<u64>, i: nat): Machine
    requires |saved| == 5 && i <= 5
    decreases 5 - i
  {
    if i == 5 then k else RestoreConc(PutReg(k, 6 + i, saved[i]), saved, i + 1)
  }

  function ConcRun(prog: seq<Insn>, k: Machine): Option<Machine> {
    if |prog| == 0 then Some(k)
    else
      match ConcStep(prog[0], k)
      case None => None
      case Some(k') => ConcRun(prog[1..], k')
  }

  // ----- the symbolic step -----

  /** A reloaded compound value must fit the loaded width; a divisor in a register is not 0. */
  datatype SideHyp = Fits(e: Expr, bits: nat) | NonZero(e: Expr, size: Size)

  datatype State = State(s: Sym, side: seq<SideHyp>, branches: seq<BranchHyp>, frames: seq<seq<Expr>>)

  function Start(hot: seq<Region>, splits: map<(Root, int), int>): State {
    State(WithRetryPlans(hot, splits), [], [], [])
  }

  function ReadOperand(s: Sym, rhs: Operand): (Sym, Expr) {
    match rhs
    case ImmOp(imm) => (s, ToU64(Const(imm)))
    case RegOp(r) => ReadReg(s, r)
  }

  /** The values of closed expressions. */
  function ClosedValues(es: seq<Expr>): (vs: Option<seq<u64>>)
    ensures vs.Some? ==> |vs.value| == |es|
  {
    if |es| == 0 then Some([])
    else
      var v, rest := Eval(es[0], map[]), ClosedValues(es[1..]);
      if v.None? || rest.None? then None else Some([v.value] + rest.value)
  }

  function FoldedRaw(op: RawOp, vs: seq<u64>): u64 {
    match op
    case RawAlu(size, o) =>
      if |vs| == 2 then Folded(size, o, vs[0], vs[1]) else if |vs| == 1 then Folded(size, o, vs[0], vs[0]) else 0
    case _ => RawMean(op, vs)
  }

  /** Rendered text; it carries its value when its operands are closed and the operation folds. */
  function TextExpr(op: RawOp, args: seq<Expr>, folds: bool): Expr {
    var text, vs := Rendering(op, args), ClosedValues(args);
    if folds && vs.Some? then RawConst(text, FoldedRaw(op, vs.value)) else Raw(text)
  }

  /** Of the 32-bit operations only the arithmetic shift is folded, and a division by a register
      never is. */
  predicate Folds(size: Size, op: AluOp, rhs: Operand) {
    if size.Narrow? then op.Arsh? else !(Divides(op) && rhs.RegOp?)
  }

  /** The structured result where there is one, otherwise rendered text. */
  function AluExpr(size: Size, op: AluOp, a: Expr, b: Expr, rhs: Operand): Expr {
    if size.Wide? && op.Add? then Binary(WrapAdd, a, b)
    else if size.Wide? && op.Sub? then Binary(WrapSub, a, b)
    else if size.Wide? && op.Mul? && rhs.RegOp? then Binary(WrapMul, a, b)
    else if size.Wide? && op.And? && rhs.ImmOp? then Unary(AndImm(rhs.imm), a)
    else if size.Wide? && op.Lsh? && rhs.ImmOp? then Unary(LshImm(rhs.imm), a)
    else if size.Wide? && op.Rsh? && rhs.ImmOp? then Unary(RshImm(rhs.imm), a)
    else TextExpr(RawAlu(size, op), if op.Mov? then [b] else [a, b], Folds(size, op, rhs))
  }

  function DivideHyps(size: Size, op: AluOp, b: Expr, rhs: Operand): seq<SideHyp> {
    if Divides(op) && rhs.RegOp? then [NonZero(b, size)] else []
  }

  function ReloadHyps(w: Width, raw: Expr): seq<SideHyp> {
    if w.Byte? || raw.InitMem? || (w.Dword? && raw.ByteCombo?) then [] else [Fits(raw, 8 * Len(w))]
  }

  function StoredReg(w: Width, cur: Expr): Expr {
    if w.Byte? then Unary(ModBy(256), cur) else cur
  }

  function StoredImm(w: Width, imm: i64): Expr {
    if w.Byte? then Unary(ModBy(256), ToU64(Const(imm))) else StImm(w, imm)
  }

  function JumpHyp(wide: bool, cond: Cond, dst: Expr, src: Expr, rhs: Operand, taken: bool): BranchHyp {
    var kind := if !wide then Jmp32(cond) else if rhs.ImmOp? then Imm64(cond) else Reg64(cond);
    match rhs
    case ImmOp(imm) => BranchHyp(kind, dst, None, imm, taken)
    case RegOp(_) => BranchHyp(kind, dst, Some(src), 0, taken)
  }

  /** The call-time r6..r10, read in order. */
  function ReadSaved(s: Sym, i: nat): (r: (Sym, seq<Expr>))
    requires i <= 5
    ensures |r.1| == 5 - i
    decreases 5 - i
  {
    if i == 5 then (s, [])
    else
      var (s1, e) := ReadReg(s, 6 + i);
      var (s2, es) := ReadSaved(s1, i + 1);
      (s2, [e] + es)
  }

  function RestoreSym(s: Sym, saved: seq<Expr>, i: nat): Sym
    requires |saved| == 5 && i <= 5
    decreases 5 - i
  {
    if i == 5 then s else RestoreSym(WriteReg(s, 6 + i, saved[i]), saved, i + 1)
  }

  function SymStep(insn: Insn, st: State): State {
    match insn
    case Ldx(w, dst, src, off) =>
      var (s1, raw) := ReadMem(st.s, src, off, w);
      st.(s := WriteReg(s1, dst, StoredReg(w, raw)), side := st.side + ReloadHyps(w, raw))
    case Stx(w, dst, off, src) =>
      var (s1, cur) := ReadReg(st.s, src);
      st.(s := WriteMem(s1, dst, off, w, StoredReg(w, cur)))
    case StoreImm(w, dst, off, imm) => st.(s := WriteMem(st.s, dst, off, w, StoredImm(w, imm)))
    case Mov(dst, rhs) =>
      var (s1, e) := ReadOperand(st.s, rhs);
      st.(s := WriteReg(s1, dst, e))
    case Alu(size, op, dst, rhs) =>
      var (s1, a) := ReadReg(st.s, dst);
      var (s2, b) := ReadOperand(s1, rhs);
      st.(s := WriteReg(s2, dst, AluExpr(size, op, a, b, rhs)), side := st.side + DivideHyps(size, op, b, rhs))
    case Negate(size, dst) =>
      var (s1, a) := ReadReg(st.s, dst);
      st.(s := WriteReg(s1, dst, TextExpr(RawAlu(size, Neg), [a], size.Wide?)))
    case Endian(dst, bytes, big) =>
      var (s1, a) := ReadReg(st.s, dst);
      if bytes <= 8 then st.(s := WriteReg(s1, dst, TextExpr(RawEndian(bytes, big), [a], true))) else st.(s := s1)
    case Jump(wide, cond, dst, rhs, taken) =>
      var (s1, a) := ReadReg(st.s, dst);
      var (s2, b) := ReadOperand(s1, rhs);
      st.(s := s2, branches := st.branches + [JumpHyp(wide, cond, a, b, rhs, taken)])
    case Ja => st
    case CallLocal =>
      var (s1, saved) := ReadSaved(st.s, 0);
      st.(s := WriteReg(s1, 10, Binary(NatAdd, saved[4], Const(0x1000))), frames := st.frames + [saved])
    case Return =>
      var n := |st.frames|;
      if n == 0 || |st.frames[n - 1]| != 5 then st
      else st.(s := RestoreSym(st.s, st.frames[n - 1], 0), frames := st.frames[..n - 1])
  }

  function SymRun(prog: seq<Insn>, st: State): State {
    if |prog| == 0 then st else SymRun(prog[1..], SymStep(prog[0], st))
  }

  // ----- what the emitted theorem assumes -----

  ghost predicate SideHolds(h: SideHyp, env: Assignment) {
    match h
    case Fits(e, bits) => Mean(e, env) < Pow2(bits)
    case NonZero(e, size) => Divisor(size, Mean(e, env)) != 0
  }

  /** The atoms hold of the initial state; the load bounds, the side conditions and the path
      hypotheses hold of the assignment. */
  ghost predicate Assumed(st: State, env: Assignment, c0: Conc) {
    Hyp(st.s, env, c0)
    && (forall i :: 0 <= i < |st.side| ==> SideHolds(st.side[i], env))
    && (forall i :: 0 <= i < |st.branches| ==> HypHolds(st.branches[i], env))
  }

  /** The lifter records a reload condition for a compound value but none for a bare variable. So
      a bare variable in the cell that a narrow load finds must fit the width of the load. */
  ghost predicate NarrowFits(s: Sym, src: Reg, off: Off, w: Width, env: Assignment) {
    var (s1, base) := ReadReg(s, src);
    var f := Lookup(s1.mem, base, off, w);
    (w.Halfword? || w.Word?) && f.Hit? && s1.mem[f.index].value.InitMem?
    ==> env(s1.mem[f.index].value.name) < Pow256(Len(w))
  }

  ghost predicate StepFits(insn: Insn, st: State, env: Assignment) {
    insn.Ldx? ==> NarrowFits(st.s, insn.src, insn.off, insn.w, env)
  }

  ghost predicate RunFits(prog: seq<Insn>, st: State, env: Assignment) {
    |prog| > 0 ==> StepFits(prog[0], st, env) && RunFits(prog[1..], SymStep(prog[0], st), env)
  }

  predicate AllChecked(prog: seq<Insn>) {
    forall i :: 0 <= i < |prog| ==> Checked(prog[i])
  }

  // ----- the relation kept by every step -----

  ghost predicate FrameAgrees(es: seq<Expr>, vs: seq<u64>, env: Assignment) {
    |es| == |vs| && forall i :: 0 <= i < |es| ==> Agrees(es[i], env, vs[i])
  }

  ghost predicate FramesAgree(fs: seq<seq<Expr>>, gs: seq<seq<u64>>, env: Assignment) {
    |fs| == |gs| && forall i :: 0 <= i < |fs| ==> FrameAgrees(fs[i], gs[i], env)
  }

  ghost predicate Rel(st: State, env: Assignment, c0: Conc, k: Machine) {
    Inv(st.s) && Sim(st.s, env, c0, k.c) && FramesAgree(st.frames, k.frames, env)
  }

  ghost predicate StateGrows(st: State, st': State) {
    Grows(st.s, st'.s) && st.side <= st'.side && st.branches <= st'.branches
  }

  lemma AssumedMonotone(st: State, st': State, env: Assignment, c0: Conc)
    requires StateGrows(st, st') && Assumed(st', env, c0)
    ensures Assumed(st, env, c0)
  {
    hide SideHolds, HypHolds, Hyp;
    HypMonotone(st.s, st'.s, env, c0);
    forall i | 0 <= i < |st.side|
      ensures SideHolds(st.side[i], env)
    {
      assert st.side[i] == st'.side[i];
    }
    forall i | 0 <= i < |st.branches|
      ensures HypHolds(st.branches[i], env)
    {
      assert st.branches[i] == st'.branches[i];
    }
  }

  lemma CleanMonotone(s: Sym, s': Sym)
    requires Grows(s, s') && Clean(s')
    ensures Clean(s)
  {
  }

  lemma OperandGrows(s: Sym, rhs: Operand)
    ensures Grows(s, ReadOperand(s, rhs).0)
  {
    if rhs.RegOp? {
      RegsGrow(s, rhs.reg, Const(0));
    }
  }

  lemma {:induction false} SavedGrows(s: Sym, i: nat)
    requires i <= 5
    ensures Grows(s, ReadSaved(s, i).0)
    decreases 5 - i
  {
    hide Grows, ReadReg;
    if i == 5 {
      GrowsItself(s);
    } else {
      var s1 := ReadReg(s, 6 + i).0;
      RegsGrow(s, 6 + i, Const(0));
      SavedGrows(s1, i + 1);
      GrowsTransitive(s, s1, ReadSaved(s, i).0);
    }
  }

  lemma {:induction false} RestoreGrows(s: Sym, saved: seq<Expr>, i: nat)
    requires |saved| == 5 && i <= 5
    ensures Grows(s, RestoreSym(s, saved, i))
    decreases 5 - i
  {
    hide Grows, WriteReg;
    if i == 5 {
      GrowsItself(s);
    } else {
      var s1 := WriteReg(s, 6 + i, saved[i]);
      RegsGrow(s, 6 + i, saved[i]);
      RestoreGrows(s1, saved, i + 1);
      GrowsTransitive(s, s1, RestoreSym(s, saved, i));
    }
  }

  lemma ReadMemGrows(s: Sym, r: Reg, off: Off, w: Width)
    ensures Grows(s, ReadMem(s, r, off, w).0)
  {
    hide Grows, ReadReg, ReadMemAt;
    var (s1, base) := ReadReg(s, r);
    RegsGrow(s, r, base);
    ReadMemAtGrows(s1, base, off, w);
    GrowsTransitive(s, s1, ReadMem(s, r, off, w).0);
  }

  lemma WriteMemGrows(s: Sym, r: Reg, off: Off, w: Width, e: Expr)
    ensures Grows(s, WriteMem(s, r, off, w, e))
  {
    hide Grows, ReadReg, WriteMemAt;
    var (s1, base) := ReadReg(s, r);
    RegsGrow(s, r, base);
    WriteMemAtGrows(s1, base, off, w, e);
    GrowsTransitive(s, s1, WriteMem(s, r, off, w, e));
  }

  lemma StepGrows(insn: Insn, st: State)
    ensures StateGrows(st, SymStep(insn, st))
  {
    hide Grows, ReadReg, WriteReg, ReadMem, WriteMem, ReadOperand, ReadSaved, RestoreSym, AluExpr, TextExpr, JumpHyp;
    var s' := SymStep(insn, st).s;
    match insn
    case Ldx(w, dst, src, off) =>
      var (s1, raw) := ReadMem(st.s, src, off, w);
      ReadMemGrows(st.s, src, off, w);
      RegsGrow(s1, dst, StoredReg(w, raw));
      GrowsTransitive(st.s, s1, s');
    case Stx(w, dst, off, src) =>
      var (s1, cur) := ReadReg(st.s, src);
      RegsGrow(st.s, src, cur);
      WriteMemGrows(s1, dst, off, w, StoredReg(w, cur));
      GrowsTransitive(st.s, s1, s');
    case StoreImm(w, dst, off, imm) => WriteMemGrows(st.s, dst, off, w, StoredImm(w, imm));
    case Mov(dst, rhs) =>
      var (s1, e) := ReadOperand(st.s, rhs);
      OperandGrows(st.s, rhs);
      RegsGrow(s1, dst, e);
      GrowsTransitive(st.s, s1, s');
    case Alu(size, op, dst, rhs) =>
      var (s1, a) := ReadReg(st.s, dst);
      var (s2, b) := ReadOperand(s1, rhs);
      RegsGrow(st.s, dst, a);
      OperandGrows(s1, rhs);
      RegsGrow(s2, dst, AluExpr(size, op, a, b, rhs));
      GrowsTransitive(st.s, s1, s2);
      GrowsTransitive(st.s, s2, s');
    case Negate(size, dst) =>
      var (s1, a) := ReadReg(st.s, dst);
      RegsGrow(st.s, dst, a);
      RegsGrow(s1, dst, TextExpr(RawAlu(size, Neg), [a], size.Wide?));
      GrowsTransitive(st.s, s1, s');
    case Endian(dst, bytes, big) =>
      var (s1, a) := ReadReg(st.s, dst);
      RegsGrow(st.s, dst, a);
      RegsGrow(s1, dst, TextExpr(RawEndian(bytes, big), [a], true));
      if bytes <= 8 {
        GrowsTransitive(st.s, s1, s');
      }
    case Jump(wide, cond, dst, rhs, taken) =>
      var (s1, a) := ReadReg(st.s, dst);
      RegsGrow(st.s, dst, a);
      OperandGrows(s1, rhs);
      GrowsTransitive(st.s, s1, s');
    case Ja => GrowsItself(st.s);
    case CallLocal =>
      var (s1, saved) := ReadSaved(st.s, 0);
      SavedGrows(st.s, 0);
      RegsGrow(s1, 10, Binary(NatAdd, saved[4], Const(0x1000)));
      GrowsTransitive(st.s, s1, s');
    case Return =>
      var n := |st.frames|;
      if n == 0 || |st.frames[n - 1]| != 5 {
        GrowsItself(st.s);
      } else {
        RestoreGrows(st.s, st.frames[n - 1], 0);
      }
  }

  lemma {:induction false} RunGrows(prog: seq<Insn>, st: State)
    ensures StateGrows(st, SymRun(prog, st))
  {
    hide Grows, SymStep;
    if |prog| == 0 {
      GrowsItself(st.s);
    } else {
      var st1 := SymStep(prog[0], st);
      StepGrows(prog[0], st);
      RunGrows(prog[1..], st1);
      GrowsTransitive(st.s, st1.s, SymRun(prog, st).s);
    }
  }

  // ----- one instruction -----

  lemma BitsAreBytes(w: Width)
    ensures Pow2(8 * Len(w)) == Pow256(Len(w))
  {
    hide Pow2, Pow256;
    Pow2Values();
    Pow256Values();
  }

  ghost predicate ReloadHolds(w: Width, raw: Expr, env: Assignment) {
    forall i :: 0 <= i < |ReloadHyps(w, raw)| ==> SideHolds(ReloadHyps(w, raw)[i], env)
  }

  /** A load's symbolic result is the loaded word if and only if a bare variable loaded at a
      narrow width fits that width. */
  lemma LoadAgreesIff(w: Width, raw: Expr, start: u64, env: Assignment, m: Memory)
    requires Loaded(raw, start, Len(w), env, m) && ReloadHolds(w, raw, env)
    ensures Agrees(StoredReg(w, raw), env, LoadWord(m, start, Len(w)))
            <==> ((w.Halfword? || w.Word?) && raw.InitMem? ==> Mean(raw, env) < Pow256(Len(w)))
  {
    hide Pow2, Pow256, WrapU, Holds, Read;
    var v := Mean(raw, env);
    ReadHolds(m, start, Len(w), v);
    BitsAreBytes(w);
    Pow256Values();
    FitsIff(v, Pow256(Len(w)));
    if (w.Halfword? || w.Word?) && !raw.InitMem? {
      assert SideHolds(ReloadHyps(w, raw)[0], env);
    }
  }

  lemma FitsIff(v: nat, p: nat)
    requires p > 0
    ensures v == v % p <==> v < p
  {
  }

  /** A narrow load returns what the cell found before it holds, or a new variable with the bound
      of its width. */
  lemma NarrowLoadSource(s: Sym, src: Reg, off: Off, w: Width)
    requires (w.Halfword? || w.Word?) && ReadMem(s, src, off, w).0.errors == []
    ensures var (s1, base) := ReadReg(s, src);
            var (s2, raw) := ReadMem(s, src, off, w);
            match Lookup(s1.mem, base, off, w)
            case Hit(i, _) => raw == s1.mem[i].value
            case Missing =>
              raw.InitMem? && |s2.loadVars| > 0 && s2.loadVars[|s2.loadVars| - 1] == (raw.name, 8 * Len(w))
  {
    hide Lookup, RequestDemotion, HotCovers, CanonAddr, NoteAccess, PlanSplit, ReadReg;
    var (s1, base) := ReadReg(s, src);
    var a := CanonAddr(base, off);
    PlansKeep(s1, a.root, a.disp, w);
    var s2 := RequestDemotion(s1, a.root, a.disp, w);
    var (names, idx) := Allocate(s2.names);
    var n := OldMem(w, idx);
    NoteAccessKeeps(s2.(names := names, loadVars := s2.loadVars + LoadBound(w, n)), base, off, Len(w), CellKey(base, off, w));
  }

  /** So whether its variable fits can be read off the state before the load. */
  lemma NarrowFitsMeans(s: Sym, src: Reg, off: Off, w: Width, env: Assignment)
    requires ReadMem(s, src, off, w).0.errors == [] && BoundsHold(ReadMem(s, src, off, w).0.loadVars, env)
    ensures var raw := ReadMem(s, src, off, w).1;
            NarrowFits(s, src, off, w, env)
            <==> ((w.Halfword? || w.Word?) && raw.InitMem? ==> Mean(raw, env) < Pow256(Len(w)))
  {
    hide Lookup, ReadMem, ReadReg, Pow2, Pow256;
    if w.Halfword? || w.Word? {
      NarrowLoadSource(s, src, off, w);
      BitsAreBytes(w);
    }
  }

  lemma LdxStep(insn: Insn, st: State, env: Assignment, c0: Conc, k: Machine)
    requires insn.Ldx? && Rel(st, env, c0, k)
    requires Assumed(SymStep(insn, st), env, c0) && Clean(SymStep(insn, st).s)
    ensures var (s1, raw) := ReadMem(st.s, insn.src, insn.off, insn.w);
            var start := WrapU(k.c.regs(insn.src) + insn.off);
            Inv(s1) && Sim(s1, env, c0, k.c) && Hyp(SymStep(insn, st).s, env, c0)
            && (Agrees(StoredReg(insn.w, raw), env, LoadWord(k.c.mem, start, Len(insn.w)))
                <==> NarrowFits(st.s, insn.src, insn.off, insn.w, env))
  {
    hide Grows, Inv, Sim, PreHolds, WriteReg, ReadMem, WrapU, Mean, Loaded, FramesAgree, Agrees,
      LoadWord, BoundsHold, SideHolds, HypHolds, NarrowFits, StoredReg, Pow256;
    var Ldx(w, dst, src, off) := insn;
    var (s1, raw) := ReadMem(st.s, src, off, w);
    var s' := WriteReg(s1, dst, StoredReg(w, raw));
    RegsGrow(s1, dst, StoredReg(w, raw));
    HypMonotone(s1, s', env, c0);
    CleanMonotone(s1, s');
    ReadMemSim(st.s, src, off, w, env, c0, k.c);
    var side := SymStep(insn, st).side;
    forall i | 0 <= i < |ReloadHyps(w, raw)|
      ensures SideHolds(ReloadHyps(w, raw)[i], env)
    {
      assert side[|st.side| + i] == ReloadHyps(w, raw)[i];
    }
    LoadAgreesIff(w, raw, WrapU(k.c.regs(src) + off), env, k.c.mem);
    NarrowFitsMeans(st.s, src, off, w, env);
  }

  /** One load keeps the two states in step if and only if its variable fits. */
  lemma LdxSound(insn: Insn, st: State, env: Assignment, c0: Conc, k: Machine)
    requires insn.Ldx? && Rel(st, env, c0, k)
    requires Assumed(SymStep(insn, st), env, c0) && Clean(SymStep(insn, st).s)
    ensures ConcStep(insn, k).Some?
    ensures Rel(SymStep(insn, st), env, c0, ConcStep(insn, k).value) <==> StepFits(insn, st, env)
  {
    hide Grows, Inv, MemSim, Hyp, ReadMem, WrapU, Mean, FramesAgree, Agrees, LoadWord, SideHolds, HypHolds, NarrowFits,
      StoredReg, Clean, ReadReg;
    var Ldx(w, dst, src, off) := insn;
    LdxStep(insn, st, env, c0, k);
    var (s1, raw) := ReadMem(st.s, src, off, w);
    var v := LoadWord(k.c.mem, WrapU(k.c.regs(src) + off), Len(w));
    if NarrowFits(st.s, src, off, w, env) {
      WriteRegSim(s1, dst, StoredReg(w, raw), v, env, c0, k.c);
    } else {
      assert WriteReg(s1, dst, StoredReg(w, raw)).regs[dst] == StoredReg(w, raw);
    }
  }

  lemma StoredRegValue(w: Width, cur: Expr, x: u64, env: Assignment)
    requires Agrees(cur, env, x)
    ensures StoredValue(StoredReg(w, cur), x, w, env)
  {
    hide ByteOf;
    if w.Byte? {
      ByteOfShift(x, 0);
      ByteOfShift(x % 256, 0);
    }
  }

  lemma StoredImmValue(w: Width, imm: i64, env: Assignment)
    ensures StoredValue(StoredImm(w, imm), WrapU(imm), w, env)
  {
    hide ByteOf, Pow256, WrapU;
    if w.Byte? {
      var e := ToU64(Const(imm));
      assert Mean(e, env) == WrapU(imm);
      ByteOfShift(WrapU(imm), 0);
      ByteOfShift(WrapU(imm) % 256, 0);
    } else {
      TruncationKeepsBytes(WrapU(imm), Len(w));
    }
  }

  lemma StxSound(insn: Insn, st: State, env: Assignment, c0: Conc, k: Machine)
    requires insn.Stx? && Rel(st, env, c0, k)
    requires Assumed(SymStep(insn, st), env, c0) && Clean(SymStep(insn, st).s)
    ensures ConcStep(insn, k).Some? && Rel(SymStep(insn, st), env, c0, ConcStep(insn, k).value)
  {
    hide Grows, Inv, Sim, Hyp, ReadReg, WriteMem, WrapU, Mean, FramesAgree, Agrees, Write,
      SideHolds, HypHolds, StoredValue, StoredReg, Clean;
    var Stx(w, dst, off, src) := insn;
    var (s1, cur) := ReadReg(st.s, src);
    WriteMemGrows(s1, dst, off, w, StoredReg(w, cur));
    HypMonotone(s1, SymStep(insn, st).s, env, c0);
    ReadRegSim(st.s, src, env, c0, k.c);
    StoredRegValue(w, cur, k.c.regs(src), env);
    WriteMemSim(s1, dst, off, w, StoredReg(w, cur), k.c.regs(src), env, c0, k.c);
  }

  lemma StoreImmSound(insn: Insn, st: State, env: Assignment, c0: Conc, k: Machine)
    requires insn.StoreImm? && Rel(st, env, c0, k)
    requires Assumed(SymStep(insn, st), env, c0) && Clean(SymStep(insn, st).s)
    ensures ConcStep(insn, k).Some? && Rel(SymStep(insn, st), env, c0, ConcStep(insn, k).value)
  {
    hide Grows, Inv, Sim, Hyp, ReadReg, WriteMem, WrapU, Mean, FramesAgree, Write,
      SideHolds, HypHolds, StoredValue, StoredImm, Clean;
    var StoreImm(w, dst, off, imm) := insn;
    StoredImmValue(w, imm, env);
    WriteMemSim(st.s, dst, off, w, StoredImm(w, imm), WrapU(imm), env, c0, k.c);
  }

  lemma ReadOperandSim(s: Sym, rhs: Operand, env: Assignment, c0: Conc, c: Conc)
    requires Inv(s) && Sim(s, env, c0, c) && Hyp(ReadOperand(s, rhs).0, env, c0)
    ensures var (s', e) := ReadOperand(s, rhs);
            Inv(s') && Sim(s', env, c0, c) && Agrees(e, env, OperandValue(rhs, c))
  {
    hide Inv, Sim, Hyp, ReadReg, WrapU;
    if rhs.RegOp? {
      ReadRegSim(s, rhs.reg, env, c0, c);
    } else {
      assert Mean(Const(rhs.imm), env) == WrapU(rhs.imm);
    }
  }

  lemma MovSound(insn: Insn, st: State, env: Assignment, c0: Conc, k: Machine)
    requires insn.Mov? && Rel(st, env, c0, k)
    requires Assumed(SymStep(insn, st), env, c0)
    ensures ConcStep(insn, k).Some? && Rel(SymStep(insn, st), env, c0, ConcStep(insn, k).value)
  {
    hide Grows, Inv, Sim, Hyp, ReadOperand, WriteReg, OperandValue, FramesAgree, Agrees, SideHolds, HypHolds;
    var (s1, e) := ReadOperand(st.s, insn.rhs);
    RegsGrow(s1, insn.dst, e);
    HypMonotone(s1, SymStep(insn, st).s, env, c0);
    ReadOperandSim(st.s, insn.rhs, env, c0, k.c);
    WriteRegSim(s1, insn.dst, e, OperandValue(insn.rhs, k.c), env, c0, k.c);
  }

  /** Closed expressions have the same values under every assignment. */
  lemma {:induction false} ClosedMean(es: seq<Expr>, env: Assignment)
    requires ClosedValues(es).Some?
    ensures MeanAll(es, env) == ClosedValues(es).value
  {
    hide Eval, Mean;
    if |es| > 0 {
      MeanExtends(es[0], map[], env);
      ClosedMean(es[1..], env);
    }
  }

  lemma FoldedRawMeans(op: RawOp, vs: seq<u64>)
    ensures FoldedRaw(op, vs) == RawMean(op, vs)
  {
    hide Folded, AluValue, EndianValue;
    if op.RawAlu? && |vs| == 2 {
      FoldedIsValue(op.size, op.op, vs[0], vs[1]);
    } else if op.RawAlu? && |vs| == 1 {
      FoldedIsValue(op.size, op.op, vs[0], vs[0]);
    }
  }

  /** Rendered text means its operation on its operands, folded or not. */
  lemma TextMeans(op: RawOp, args: seq<Expr>, folds: bool, env: Assignment)
    ensures Mean(TextExpr(op, args, folds), env) == RawMean(op, MeanAll(args, env))
  {
    hide ClosedValues, MeanAll, FoldedRaw, RawMean;
    if folds && ClosedValues(args).Some? {
      ClosedMean(args, env);
      FoldedRawMeans(op, ClosedValues(args).value);
    }
  }

  lemma MeanOne(a: Expr, env: Assignment)
    ensures MeanAll([a], env) == [Mean(a, env)]
  {
    hide Mean;
    assert MeanAll([], env) == [];
  }

  lemma MeanTwo(a: Expr, b: Expr, env: Assignment)
    ensures MeanAll([a, b], env) == [Mean(a, env), Mean(b, env)]
  {
    hide Mean;
    assert [a, b][1..] == [b];
    MeanOne(b, env);
  }

  lemma AluAgrees(size: Size, op: AluOp, a: Expr, b: Expr, rhs: Operand, x: u64, y: u64, env: Assignment)
    requires Agrees(a, env, x) && Agrees(b, env, y)
    requires rhs.ImmOp? ==> y == WrapU(rhs.imm)
    ensures Agrees(AluExpr(size, op, a, b, rhs), env, AluValue(size, op, x, y))
  {
    hide WrapU, Mean, AluValue, TextExpr, Folds;
    var e := AluExpr(size, op, a, b, rhs);
    if size.Wide? && (op.Add? || op.Sub? || (op.Mul? && rhs.RegOp?)) {
      BinaryAgrees(op, e.bop, a, b, x, y, env);
    } else if size.Wide? && (op.And? || op.Lsh? || op.Rsh?) && rhs.ImmOp? {
      UnaryAgrees(op, e.uop, a, rhs.imm, x, env);
    } else {
      TextMeans(RawAlu(size, op), if op.Mov? then [b] else [a, b], Folds(size, op, rhs), env);
      TextAlu(size, op, a, b, env);
    }
  }

  lemma TextAlu(size: Size, op: AluOp, a: Expr, b: Expr, env: Assignment)
    ensures RawMean(RawAlu(size, op), MeanAll(if op.Mov? then [b] else [a, b], env))
            == AluValue(size, op, Mean(a, env), Mean(b, env))
  {
    hide Mean, MeanAll, Bitwise, ShiftLeft, ShiftRight, Arsh64, Arsh32, WrapU;
    MeanOne(b, env);
    MeanTwo(a, b, env);
  }

  lemma BinaryAgrees(op: AluOp, bop: BinaryOp, a: Expr, b: Expr, x: u64, y: u64, env: Assignment)
    requires Agrees(a, env, x) && Agrees(b, env, y)
    requires (op == Add && bop == WrapAdd) || (op == Sub && bop == WrapSub) || (op == Mul && bop == WrapMul)
    ensures Agrees(Binary(bop, a, b), env, AluValue(Wide, op, x, y))
  {
    hide WrapU;
  }

  lemma UnaryAgrees(op: AluOp, uop: UnaryOp, a: Expr, imm: i64, x: u64, env: Assignment)
    requires Agrees(a, env, x)
    requires (op == And && uop == AndImm(imm)) || (op == Lsh && uop == LshImm(imm)) || (op == Rsh && uop == RshImm(imm))
    ensures Agrees(Unary(uop, a), env, AluValue(Wide, op, x, WrapU(imm)))
  {
    hide WrapU, Bitwise, ShiftLeft, ShiftRight;
  }

  /** Both operands of a two-operand instruction, read in order. */
  lemma OperandsSim(s: Sym, dst: Reg, rhs: Operand, env: Assignment, c0: Conc, c: Conc)
    requires Inv(s) && Sim(s, env, c0, c) && Hyp(ReadOperand(ReadReg(s, dst).0, rhs).0, env, c0)
    ensures var (s1, a) := ReadReg(s, dst);
            var (s2, b) := ReadOperand(s1, rhs);
            Inv(s2) && Sim(s2, env, c0, c)
            && Agrees(a, env, c.regs(dst)) && Agrees(b, env, OperandValue(rhs, c))
  {
    hide Grows, Inv, Sim, Hyp, ReadReg, ReadOperand, OperandValue, Agrees;
    var (s1, a) := ReadReg(s, dst);
    OperandGrows(s1, rhs);
    HypMonotone(s1, ReadOperand(s1, rhs).0, env, c0);
    ReadRegSim(s, dst, env, c0, c);
    ReadOperandSim(s1, rhs, env, c0, c);
  }

  lemma AluSound(insn: Insn, st: State, env: Assignment, c0: Conc, k: Machine)
    requires insn.Alu? && Checked(insn) && Rel(st, env, c0, k)
    requires Assumed(SymStep(insn, st), env, c0)
    ensures ConcStep(insn, k).Some? && Rel(SymStep(insn, st), env, c0, ConcStep(insn, k).value)
  {
    hide Grows, Inv, Sim, Hyp, ReadReg, ReadOperand, WriteReg, AluExpr, AluValue, FramesAgree, Agrees, SideHolds, HypHolds,
      WrapU, Divisor;
    var Alu(size, op, dst, rhs) := insn;
    var (s1, a) := ReadReg(st.s, dst);
    var (s2, b) := ReadOperand(s1, rhs);
    var x, y := k.c.regs(dst), OperandValue(rhs, k.c);
    RegsGrow(s2, dst, AluExpr(size, op, a, b, rhs));
    HypMonotone(s2, SymStep(insn, st).s, env, c0);
    OperandsSim(st.s, dst, rhs, env, c0, k.c);
    if Divides(op) && rhs.RegOp? {
      assert SymStep(insn, st).side[|st.side|] == NonZero(b, size);
      DivisorSeen(b, size, y, env);
    }
    AluAgrees(size, op, a, b, rhs, x, y, env);
    WriteRegSim(s2, dst, AluExpr(size, op, a, b, rhs), AluValue(size, op, x, y), env, c0, k.c);
  }

  lemma DivisorSeen(b: Expr, size: Size, y: u64, env: Assignment)
    requires SideHolds(NonZero(b, size), env) && Agrees(b, env, y)
    ensures Divisor(size, y) != 0
  {
  }

  lemma UnarySound(insn: Insn, st: State, env: Assignment, c0: Conc, k: Machine)
    requires (insn.Negate? || insn.Endian?) && Checked(insn) && Rel(st, env, c0, k)
    requires Assumed(SymStep(insn, st), env, c0)
    ensures ConcStep(insn, k).Some? && Rel(SymStep(insn, st), env, c0, ConcStep(insn, k).value)
  {
    hide Grows, Inv, Sim, Hyp, ReadReg, WriteReg, TextExpr, AluValue, EndianValue, FramesAgree, Agrees, SideHolds, HypHolds;
    var (s1, a) := ReadReg(st.s, insn.dst);
    var op := if insn.Negate? then RawAlu(insn.size, Neg) else RawEndian(insn.bytes, insn.big);
    var folds := if insn.Negate? then insn.size.Wide? else true;
    var e, x := TextExpr(op, [a], folds), k.c.regs(insn.dst);
    RegsGrow(s1, insn.dst, e);
    HypMonotone(s1, SymStep(insn, st).s, env, c0);
    ReadRegSim(st.s, insn.dst, env, c0, k.c);
    UnaryTextAgrees(op, a, folds, x, env);
    WriteRegSim(s1, insn.dst, e, RawMean(op, [x]), env, c0, k.c);
  }

  lemma UnaryTextAgrees(op: RawOp, a: Expr, folds: bool, x: u64, env: Assignment)
    requires Agrees(a, env, x)
    ensures Agrees(TextExpr(op, [a], folds), env, RawMean(op, [x]))
  {
    hide Mean, TextExpr, RawMean;
    TextMeans(op, [a], folds, env);
    MeanOne(a, env);
  }

  /** A path hypothesis that holds is the machine's own decision. */
  lemma JumpAgrees(wide: bool, cond: Cond, a: Expr, b: Expr, rhs: Operand, taken: bool, x: u64, c: Conc, env: Assignment)
    requires Agrees(a, env, x) && Agrees(b, env, OperandValue(rhs, c))
    requires HypHolds(JumpHyp(wide, cond, a, b, rhs, taken), env)
    ensures var y := OperandValue(rhs, c);
            (if wide then Compare64(cond, x, y) else Compare32(cond, x, y)) == taken
  {
    hide Compare64, Compare32, WrapU, Mean;
  }

  lemma JumpSound(insn: Insn, st: State, env: Assignment, c0: Conc, k: Machine)
    requires insn.Jump? && Rel(st, env, c0, k)
    requires Assumed(SymStep(insn, st), env, c0)
    ensures ConcStep(insn, k).Some? && Rel(SymStep(insn, st), env, c0, ConcStep(insn, k).value)
  {
    hide Grows, Inv, Sim, Hyp, ReadReg, ReadOperand, FramesAgree, Agrees, SideHolds, HypHolds,
      Compare64, Compare32, JumpHyp, OperandValue;
    var Jump(wide, cond, dst, rhs, taken) := insn;
    var (s1, a) := ReadReg(st.s, dst);
    var (s2, b) := ReadOperand(s1, rhs);
    OperandsSim(st.s, dst, rhs, env, c0, k.c);
    var st' := SymStep(insn, st);
    assert st'.branches[|st.branches|] == JumpHyp(wide, cond, a, b, rhs, taken);
    JumpAgrees(wide, cond, a, b, rhs, taken, k.c.regs(dst), k.c, env);
  }

  function SavedRegs(regs: Reg -> u64, i: nat): (vs: seq<u64>)
    requires i <= 5
    ensures |vs| == 5 - i
    decreases 5 - i
  {
    if i == 5 then [] else [regs(6 + i)] + SavedRegs(regs, i + 1)
  }

  lemma {:induction false} ReadSavedSim(s: Sym, i: nat, env: Assignment, c0: Conc, c: Conc)
    requires i <= 5 && Inv(s) && Sim(s, env, c0, c) && Hyp(ReadSaved(s, i).0, env, c0)
    ensures var (s', es) := ReadSaved(s, i);
            Inv(s') && Sim(s', env, c0, c) && FrameAgrees(es, SavedRegs(c.regs, i), env)
    decreases 5 - i
  {
    hide Grows, Inv, Sim, Hyp, ReadReg, Agrees;
    if i < 5 {
      var (s1, e) := ReadReg(s, 6 + i);
      SavedGrows(s1, i + 1);
      HypMonotone(s1, ReadSaved(s, i).0, env, c0);
      ReadRegSim(s, 6 + i, env, c0, c);
      ReadSavedSim(s1, i + 1, env, c0, c);
    }
  }

  lemma StackTopAgrees(e: Expr, x: u64, env: Assignment)
    requires Agrees(e, env, x)
    ensures Agrees(Binary(NatAdd, e, Const(0x1000)), env, WrapU(x + 0x1000))
  {
    hide WrapU;
    WrapId(0x1000);
    assert Mean(Const(0x1000), env) == WrapU(0x1000);
  }

  lemma CallSound(st: State, env: Assignment, c0: Conc, k: Machine)
    requires Rel(st, env, c0, k) && Assumed(SymStep(CallLocal, st), env, c0)
    ensures ConcStep(CallLocal, k).Some?
    ensures Rel(SymStep(CallLocal, st), env, c0, ConcStep(CallLocal, k).value)
  {
    hide Grows, Inv, Sim, Hyp, ReadSaved, WriteReg, Agrees, SideHolds, HypHolds, WrapU;
    var (s1, saved) := ReadSaved(st.s, 0);
    var top := Binary(NatAdd, saved[4], Const(0x1000));
    RegsGrow(s1, 10, top);
    HypMonotone(s1, SymStep(CallLocal, st).s, env, c0);
    ReadSavedSim(st.s, 0, env, c0, k.c);
    var r := k.c.regs;
    var vs := SavedRegs(r, 0);
    assert SavedRegs(r, 3) == [r(9), r(10)];
    assert vs == [r(6), r(7), r(8), r(9), r(10)];
    assert Agrees(saved[4], env, vs[4]);
    StackTopAgrees(saved[4], r(10), env);
    WriteRegSim(s1, 10, top, WrapU(r(10) + 0x1000), env, c0, k.c);
  }

  lemma {:induction false} RestoreSound(s: Sym, es: seq<Expr>, vs: seq<u64>, i: nat, env: Assignment, c0: Conc, k: Machine)
    requires |es| == 5 && |vs| == 5 && i <= 5 && FrameAgrees(es, vs, env)
    requires Inv(s) && Sim(s, env, c0, k.c) && Hyp(RestoreSym(s, es, i), env, c0)
    ensures Inv(RestoreSym(s, es, i))
    ensures Sim(RestoreSym(s, es, i), env, c0, RestoreConc(k, vs, i).c)
    ensures RestoreConc(k, vs, i).frames == k.frames
    decreases 5 - i
  {
    hide Grows, Inv, Sim, Hyp, WriteReg, Agrees;
    if i < 5 {
      var s1 := WriteReg(s, 6 + i, es[i]);
      RestoreGrows(s1, es, i + 1);
      HypMonotone(s1, RestoreSym(s, es, i), env, c0);
      assert Agrees(es[i], env, vs[i]);
      WriteRegSim(s, 6 + i, es[i], vs[i], env, c0, k.c);
      RestoreSound(s1, es, vs, i + 1, env, c0, PutReg(k, 6 + i, vs[i]));
    }
  }

  lemma ReturnSound(st: State, env: Assignment, c0: Conc, k: Machine)
    requires Rel(st, env, c0, k) && Assumed(SymStep(Return, st), env, c0)
    ensures ConcStep(Return, k).Some?
    ensures Rel(SymStep(Return, st), env, c0, ConcStep(Return, k).value)
  {
    hide Inv, Sim, Hyp, RestoreSym, RestoreConc, Agrees, SideHolds, HypHolds;
    var n := |st.frames|;
    if n > 0 {
      assert FrameAgrees(st.frames[n - 1], k.frames[n - 1], env);
      if |st.frames[n - 1]| == 5 {
        RestoreSound(st.s, st.frames[n - 1], k.frames[n - 1], 0, env, c0, k.(frames := k.frames[..n - 1]));
      }
    }
  }

  /** One instruction keeps the two states in step if and only if a bare variable it loads at a
      narrow width fits. */
  lemma StepSound(insn: Insn, st: State, env: Assignment, c0: Conc, k: Machine)
    requires Checked(insn) && Rel(st, env, c0, k)
    requires Assumed(SymStep(insn, st), env, c0) && Clean(SymStep(insn, st).s)
    ensures ConcStep(insn, k).Some?
    ensures Rel(SymStep(insn, st), env, c0, ConcStep(insn, k).value) <==> StepFits(insn, st, env)
  {
    hide Rel, NarrowFits, Assumed, Clean, Checked;
    match insn
    case Ldx(_, _, _, _) => LdxSound(insn, st, env, c0, k);
    case Stx(_, _, _, _) => StxSound(insn, st, env, c0, k);
    case StoreImm(_, _, _, _) => StoreImmSound(insn, st, env, c0, k);
    case Mov(_, _) => MovSound(insn, st, env, c0, k);
    case Alu(_, _, _, _) => AluSound(insn, st, env, c0, k);
    case Negate(_, _) => UnarySound(insn, st, env, c0, k);
    case Endian(_, _, _) => UnarySound(insn, st, env, c0, k);
    case Jump(_, _, _, _, _) => JumpSound(insn, st, env, c0, k);
    case Ja => JaSound(st, env, c0, k);
    case CallLocal => CallSound(st, env, c0, k);
    case Return => ReturnSound(st, env, c0, k);
  }

  lemma JaSound(st: State, env: Assignment, c0: Conc, k: Machine)
    requires Rel(st, env, c0, k)
    ensures ConcStep(Ja, k) == Some(k) && Rel(SymStep(Ja, st), env, c0, k)
  {
    hide Inv, Sim, FramesAgree;
  }

  // ----- whole paths -----

  /** The two runs agree before the path and after each of its instructions. */
  ghost predicate Follows(prog: seq<Insn>, st: State, env: Assignment, c0: Conc, k: Machine) {
    Rel(st, env, c0, k)
    && (|prog| > 0 ==>
          ConcStep(prog[0], k).Some?
          && Follows(prog[1..], SymStep(prog[0], st), env, c0, ConcStep(prog[0], k).value))
  }

  /** The exact condition: under the recorded hypotheses, symbolic and concrete run agree at every
      step if and only if every bare variable loaded at a narrow width fits that width. */
  lemma {:induction false} FollowsIff(prog: seq<Insn>, st: State, env: Assignment, c0: Conc, k: Machine)
    requires AllChecked(prog) && Rel(st, env, c0, k)
    requires Assumed(SymRun(prog, st), env, c0) && Clean(SymRun(prog, st).s)
    ensures Follows(prog, st, env, c0, k) <==> RunFits(prog, st, env)
  {
    hide Rel, StepFits, Assumed, Clean, SymStep, ConcStep, Grows, Checked;
    if |prog| > 0 {
      var st1 := SymStep(prog[0], st);
      RunGrows(prog[1..], st1);
      AssumedMonotone(st1, SymRun(prog, st), env, c0);
      CleanMonotone(st1.s, SymRun(prog, st).s);
      StepSound(prog[0], st, env, c0, k);
      if StepFits(prog[0], st, env) {
        FollowsIff(prog[1..], st1, env, c0, ConcStep(prog[0], k).value);
      }
    }
  }

  lemma {:induction false} FollowsEnds(prog: seq<Insn>, st: State, env: Assignment, c0: Conc, k: Machine)
    requires Follows(prog, st, env, c0, k)
    ensures ConcRun(prog, k).Some? && Rel(SymRun(prog, st), env, c0, ConcRun(prog, k).value)
  {
    hide Rel, SymStep, ConcStep;
    if |prog| > 0 {
      FollowsEnds(prog[1..], SymStep(prog[0], st), env, c0, ConcStep(prog[0], k).value);
    }
  }

  /** The emitted triple is sound. For every path the lifter finishes without a retry plan and
      without overlap, from every concrete state satisfying the precondition under an assignment
      that satisfies the recorded hypotheses, the machine follows that path, ends in a state
      satisfying the postcondition, and leaves memory outside the atoms alone. */
  lemma SymbolicExecutionSound(
    prog: seq<Insn>, hot: seq<Region>, splits: map<(Root, int), int>, env: Assignment, c0: Conc)
    requires AllChecked(prog) && RunFits(prog, Start(hot, splits), env)
    requires var st := SymRun(prog, Start(hot, splits));
             Assumed(st, env, c0) && RetryPlanOf(st.s) == Ready && st.s.errors == []
    ensures var s := SymRun(prog, Start(hot, splits)).s;
            var end := ConcRun(prog, Machine(c0, []));
            end.Some?
            && (forall i :: 0 <= i < |s.pre| ==> AtomHolds(PostAtoms(s.pre, s)[i], env, end.value.c))
            && Framed(MemCells(s.pre), env, c0.mem, end.value.c.mem)
  {
    hide Assumed, AtomHolds, Framed, SymRun, ConcRun, RunFits, Follows, AllChecked;
    var st0, k0 := Start(hot, splits), Machine(c0, []);
    StartRelated(hot, splits, env, c0);
    FollowsIff(prog, st0, env, c0, k0);
    FollowsEnds(prog, st0, env, c0, k0);
    PostHolds(SymRun(prog, st0).s, env, c0, ConcRun(prog, k0).value.c);
  }

  lemma StartRelated(hot: seq<Region>, splits: map<(Root, int), int>, env: Assignment, c0: Conc)
    ensures Rel(Start(hot, splits), env, c0, Machine(c0, []))
  {
  }

  // ----- the condition read off the recorded bounds -----

  /** Some recorded bound of the variable is no wider than the load. */
  predicate BoundRecorded(vars: seq<(Name, nat)>, n: Name, bits: nat) {
    exists i | 0 <= i < |vars| :: vars[i].0 == n && vars[i].1 <= bits
  }

  predicate StepBounded(insn: Insn, st: State) {
    match insn
    case Ldx(w, _, src, off) =>
      var (s1, base) := ReadReg(st.s, src);
      var f := Lookup(s1.mem, base, off, w);
      (w.Halfword? || w.Word?) && f.Hit? && s1.mem[f.index].value.InitMem?
      ==> BoundRecorded(st.s.loadVars, s1.mem[f.index].value.name, 8 * Len(w))
    case _ => true
  }

  /** A condition on the path's text alone. */
  predicate RunBounded(prog: seq<Insn>, st: State) {
    |prog| > 0 ==> StepBounded(prog[0], st) && RunBounded(prog[1..], SymStep(prog[0], st))
  }

  lemma BoundFits(vars: seq<(Name, nat)>, n: Name, w: Width, env: Assignment)
    requires BoundsHold(vars, env) && BoundRecorded(vars, n, 8 * Len(w))
    ensures env(n) < Pow256(Len(w))
  {
    hide Pow2, Pow256;
    var i :| 0 <= i < |vars| && vars[i].0 == n && vars[i].1 <= 8 * Len(w);
    Pow2Grows(vars[i].1, 8 * Len(w));
    BitsAreBytes(w);
  }

  lemma {:induction false} Pow2Grows(a: nat, b: nat)
    requires a <= b
    ensures Pow2(a) <= Pow2(b)
  {
    if a < b {
      Pow2Grows(a, b - 1);
    }
  }

  /** Recorded bounds no wider than the loads are enough. */
  lemma {:induction false} BoundedRunFits(prog: seq<Insn>, st: State, env: Assignment)
    requires RunBounded(prog, st) && BoundsHold(SymRun(prog, st).s.loadVars, env)
    ensures RunFits(prog, st, env)
  {
    hide SymStep, BoundsHold, Pow256, ReadReg, Lookup, BoundRecorded, Grows;
    if |prog| > 0 {
      var st1 := SymStep(prog[0], st);
      RunGrows(prog, st);
      LoadVarsGrow(st.s, SymRun(prog, st).s);
      BoundsHoldPrefix(st.s.loadVars, SymRun(prog, st).s.loadVars, env);
      BoundedRunFits(prog[1..], st1, env);
      if prog[0].Ldx? {
        var Ldx(w, _, src, off) := prog[0];
        var (s1, base) := ReadReg(st.s, src);
        var f := Lookup(s1.mem, base, off, w);
        if (w.Halfword? || w.Word?) && f.Hit? && s1.mem[f.index].value.InitMem? {
          BoundFits(st.s.loadVars, s1.mem[f.index].value.name, w, env);
        }
      }
    }
  }

  lemma LoadVarsGrow(s: Sym, s': Sym)
    requires Grows(s, s')
    ensures s.loadVars <= s'.loadVars
  {
  }
}
