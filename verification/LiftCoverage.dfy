/** The emitted precondition covers every concrete state: each variable a path mentions is the
    initial value of a register or memory place that an earlier atom names, so an assignment can
    be read off any state. */
module LiftCoverage {
  import opened Words
  import opened Alu
  import opened SymExpr
  import opened SymModel
  import opened Branch
  import opened LiftSound
  import opened Lift
  import opened LiftInvariants

  // ----- variables of an expression -----

  /** All variables of the expression, also inside rendered text, are among `ns`, and a bare constant
      is not negative. */
  ghost predicate Known(e: Expr, ns: set<Name>)
    decreases e, 1
  {
    match e
    case InitReg(n) => n in ns
    case InitMem(n) => n in ns
    case Const(k) => k >= 0
    case ToU64(a) => a.Const? || Known(a, ns)
    case Unary(_, a) => Known(a, ns)
    case Binary(_, a, b) => Known(a, ns) && Known(b, ns)
    case ByteCombo(bytes) => KnownAll(bytes, ns)
    case Raw(text) => KnownAll(text.args, ns)
    case _ => true
  }

  ghost predicate KnownAll(es: seq<Expr>, ns: set<Name>)
    decreases es, 0
  {
    |es| > 0 ==> Known(es[0], ns) && KnownAll(es[1..], ns)
  }

  ghost predicate AgreeOn(ns: set<Name>, env: Assignment, env': Assignment) {
    forall n :: n in ns ==> env(n) == env'(n)
  }

  /** An expression means the same under assignments that agree on its variables. */
  lemma {:induction false} KnownMean(e: Expr, ns: set<Name>, env: Assignment, env': Assignment)
    requires Known(e, ns) && AgreeOn(ns, env, env')
    ensures Mean(e, env) == Mean(e, env')
    decreases e, 1
  {
    hide RawMean, MeanBinary, ApplyUnary;
    match e
    case ToU64(a) =>
      if !a.Const? {
        KnownMean(a, ns, env, env');
      }
    case Unary(_, a) => KnownMean(a, ns, env, env');
    case Binary(_, a, b) =>
      KnownMean(a, ns, env, env');
      KnownMean(b, ns, env, env');
    case ByteCombo(bytes) => KnownMeanAll(bytes, ns, env, env');
    case Raw(text) => KnownMeanAll(text.args, ns, env, env');
    case _ =>
  }

  lemma {:induction false} KnownMeanAll(es: seq<Expr>, ns: set<Name>, env: Assignment, env': Assignment)
    requires KnownAll(es, ns) && AgreeOn(ns, env, env')
    ensures MeanCombo(es, env) == MeanCombo(es, env') && MeanAll(es, env) == MeanAll(es, env')
    decreases es, 0
  {
    hide WrapU, AgreeOn;
    if |es| > 0 {
      KnownMean(es[0], ns, env, env');
      KnownMeanAll(es[1..], ns, env, env');
    }
  }

  lemma {:induction false} KnownMore(e: Expr, ns: set<Name>, ns': set<Name>)
    requires Known(e, ns) && ns <= ns'
    ensures Known(e, ns')
    decreases e, 1
  {
    match e
    case ToU64(a) =>
      if !a.Const? {
        KnownMore(a, ns, ns');
      }
    case Unary(_, a) => KnownMore(a, ns, ns');
    case Binary(_, a, b) =>
      KnownMore(a, ns, ns');
      KnownMore(b, ns, ns');
    case ByteCombo(bytes) => KnownAllMore(bytes, ns, ns');
    case Raw(text) => KnownAllMore(text.args, ns, ns');
    case _ =>
  }

  lemma {:induction false} KnownAllMore(es: seq<Expr>, ns: set<Name>, ns': set<Name>)
    requires KnownAll(es, ns) && ns <= ns'
    ensures KnownAll(es, ns')
    decreases es, 0
  {
    if |es| > 0 {
      KnownMore(es[0], ns, ns');
      KnownAllMore(es[1..], ns, ns');
    }
  }

  lemma KnownOne(a: Expr, ns: set<Name>)
    requires Known(a, ns)
    ensures KnownAll([a], ns)
  {
    hide Known;
    assert KnownAll([], ns);
  }

  lemma KnownTwo(a: Expr, b: Expr, ns: set<Name>)
    requires Known(a, ns) && Known(b, ns)
    ensures KnownAll([a, b], ns)
  {
    hide Known;
    assert [a, b][1..] == [b];
    KnownOne(b, ns);
  }

  // ----- variables of a state -----

  /** The variables the atoms introduce. */
  ghost function NamesOf(pre: seq<Atom>): set<Name> {
    set i | 0 <= i < |pre| && AtomName(pre[i]).Some? :: AtomName(pre[i]).value
  }

  function AtomName(a: Atom): Option<Name> {
    if AtomValue(a).IsVar() then Some(AtomValue(a).name) else None
  }

  lemma NamesGrow(pre: seq<Atom>, pre': seq<Atom>)
    requires pre <= pre'
    ensures NamesOf(pre) <= NamesOf(pre')
  {
    forall n | n in NamesOf(pre)
      ensures n in NamesOf(pre')
    {
      var i :| 0 <= i < |pre| && AtomName(pre[i]) == Some(n);
      assert pre'[i] == pre[i];
    }
  }

  lemma NamesAppend(pre: seq<Atom>, a: Atom)
    requires AtomName(a).Some?
    ensures NamesOf(pre + [a]) == NamesOf(pre) + {AtomName(a).value}
  {
    var pre' := pre + [a];
    NamesGrow(pre, pre');
    assert pre'[|pre|] == a;
    forall n | n in NamesOf(pre')
      ensures n in NamesOf(pre) + {AtomName(a).value}
    {
      var i :| 0 <= i < |pre'| && AtomName(pre'[i]) == Some(n);
      if i < |pre| {
        assert pre[i] == pre'[i];
      }
    }
  }

  ghost predicate RegsKnown(regs: map<Reg, Expr>, ns: set<Name>) {
    forall r :: r in regs ==> Known(regs[r], ns)
  }

  ghost predicate CellsKnown(mem: seq<MemCell>, ns: set<Name>) {
    forall i :: 0 <= i < |mem| ==> Known(mem[i].base, ns) && Known(mem[i].value, ns)
  }

  /** Each memory atom's base mentions only variables of earlier atoms. */
  ghost predicate BasesKnown(pre: seq<Atom>) {
    forall i :: 0 <= i < |pre| && pre[i].MemAtom? ==> Known(pre[i].cell.base, NamesOf(pre[..i]))
  }

  ghost predicate SymKnown(s: Sym) {
    RegsKnown(s.regs, NamesOf(s.pre)) && CellsKnown(s.mem, NamesOf(s.pre)) && BasesKnown(s.pre)
  }

  ghost predicate KnownIn(e: Expr, s: Sym) {
    Known(e, NamesOf(s.pre))
  }

  lemma KnownLater(e: Expr, s: Sym, s': Sym)
    requires KnownIn(e, s) && s.pre <= s'.pre
    ensures KnownIn(e, s')
  {
    hide Known, NamesOf;
    NamesGrow(s.pre, s'.pre);
    KnownMore(e, NamesOf(s.pre), NamesOf(s'.pre));
  }

  lemma BasesAppend(pre: seq<Atom>, a: Atom)
    requires BasesKnown(pre) && (a.MemAtom? ==> Known(a.cell.base, NamesOf(pre)))
    ensures BasesKnown(pre + [a])
  {
    hide Known, NamesOf;
    var pre' := pre + [a];
    forall i | 0 <= i < |pre'| && pre'[i].MemAtom?
      ensures Known(pre'[i].cell.base, NamesOf(pre'[..i]))
    {
      if i < |pre| {
        assert pre'[..i] == pre[..i] && pre'[i] == pre[i];
      } else {
        assert pre'[..i] == pre;
      }
    }
  }

  lemma RegsKnownMore(regs: map<Reg, Expr>, ns: set<Name>, ns': set<Name>)
    requires RegsKnown(regs, ns) && ns <= ns'
    ensures RegsKnown(regs, ns')
  {
    hide Known;
    forall r | r in regs
      ensures Known(regs[r], ns')
    {
      KnownMore(regs[r], ns, ns');
    }
  }

  lemma CellsKnownMore(mem: seq<MemCell>, ns: set<Name>, ns': set<Name>)
    requires CellsKnown(mem, ns) && ns <= ns'
    ensures CellsKnown(mem, ns')
  {
    hide Known;
    forall i | 0 <= i < |mem|
      ensures Known(mem[i].base, ns') && Known(mem[i].value, ns')
    {
      KnownMore(mem[i].base, ns, ns');
      KnownMore(mem[i].value, ns, ns');
    }
  }

  /** An atom is appended; the old registers and cells stay known, its own variable is. */
  lemma AtomKnown(s: Sym, a: Atom)
    requires SymKnown(s) && AtomName(a).Some? && (a.MemAtom? ==> KnownIn(a.cell.base, s))
    ensures var ns := NamesOf(s.pre + [a]);
            RegsKnown(s.regs, ns) && CellsKnown(s.mem, ns) && BasesKnown(s.pre + [a])
            && Known(AtomValue(a), ns) && (a.MemAtom? ==> Known(a.cell.base, ns))
  {
    hide RegsKnown, CellsKnown, BasesKnown, NamesOf;
    var ns, ns' := NamesOf(s.pre), NamesOf(s.pre + [a]);
    NamesAppend(s.pre, a);
    RegsKnownMore(s.regs, ns, ns');
    CellsKnownMore(s.mem, ns, ns');
    BasesAppend(s.pre, a);
    if a.MemAtom? {
      KnownMore(a.cell.base, ns, ns');
    }
  }

  // ----- registers -----

  lemma ReadRegKnown(s: Sym, r: Reg)
    requires SymKnown(s)
    ensures var (s', e) := ReadReg(s, r); SymKnown(s') && KnownIn(e, s') && s.pre <= s'.pre
  {
    hide Known, CellsKnown, BasesKnown, NamesOf;
    if r !in s.regs {
      AtomKnown(s, RegAtom(r, InitReg(RegOld(r))));
    }
  }

  lemma WriteRegKnown(s: Sym, r: Reg, e: Expr)
    requires SymKnown(s) && KnownIn(e, s)
    ensures SymKnown(WriteReg(s, r, e)) && s.pre <= WriteReg(s, r, e).pre
  {
    hide Known, CellsKnown, BasesKnown, NamesOf, ReadReg;
    var s1 := ReadReg(s, r).0;
    ReadRegKnown(s, r);
    KnownLater(e, s, s1);
  }

  // ----- cells -----

  lemma AddCellKnown(s: Sym, s': Sym, cell: MemCell)
    requires SymKnown(s) && KnownIn(cell.base, s) && cell.value.InitMem?
    requires s'.pre == s.pre + [MemAtom(cell)] && s'.mem == s.mem + [cell] && s'.regs == s.regs
    ensures SymKnown(s') && KnownIn(cell.value, s') && s.pre <= s'.pre
  {
    hide Known, RegsKnown, BasesKnown, NamesOf;
    AtomKnown(s, MemAtom(cell));
  }

  /** The state's variables depend only on these parts. */
  lemma KnownSame(s: Sym, s': Sym)
    requires SymKnown(s) && s'.regs == s.regs && s'.pre == s.pre && s'.mem == s.mem
    ensures SymKnown(s')
  {
    hide RegsKnown, CellsKnown, BasesKnown, NamesOf;
  }

  lemma CellKnown(s: Sym, i: nat)
    requires SymKnown(s) && i < |s.mem|
    ensures KnownIn(s.mem[i].value, s) && KnownIn(s.mem[i].base, s)
  {
    hide Known, RegsKnown, BasesKnown, NamesOf;
  }

  lemma SetValueKnown(s: Sym, i: nat, e: Expr)
    requires SymKnown(s) && i < |s.mem| && KnownIn(e, s)
    ensures SymKnown(SetValue(s, i, e)) && SetValue(s, i, e).pre == s.pre
  {
    hide Known, RegsKnown, BasesKnown, NamesOf;
  }

  lemma HotSlotKnown(s: Sym, base: Expr, off: Off, k: nat)
    requires SymKnown(s) && KnownIn(base, s) && k < 8
    ensures var (s', i) := HotSlot(s, base, off, k);
            SymKnown(s') && KnownIn(s'.mem[i].value, s') && KnownIn(base, s') && s.pre <= s'.pre
  {
    hide FindByte, CanonAddr, NoteAccess, SymKnown, KnownIn, Allocate;
    var c := CanonAddr(base, off);
    var f := FindByte(s.mem, c.root, c.disp + k);
    var (s', i) := HotSlot(s, base, off, k);
    if f.Some? {
      KnownSame(s, s');
      CellKnown(s', i);
      KnownLater(base, s, s');
    } else {
      var (names, idx) := Allocate(s.names);
      var n := OldMem(Byte, idx);
      var s1 := s.(names := names, loadVars := s.loadVars + [(n, 8)]);
      var cell := MemCell(base, off, Byte, InitMem(n), k);
      NoteAccessKeeps(AddCell(s1, cell), base, off + k, 1, HotKey(base, off, k));
      AddCellKnown(s, s', cell);
      KnownLater(base, s, s');
    }
  }

  lemma {:induction false} HotLoadSlotsKnown(s: Sym, base: Expr, off: Off, k: nat)
    requires SymKnown(s) && KnownIn(base, s) && k <= 8
    ensures var (s', vs) := HotLoadSlots(s, base, off, k);
            SymKnown(s') && KnownAll(vs, NamesOf(s'.pre)) && s.pre <= s'.pre
    decreases 8 - k
  {
    hide HotSlot, SymKnown, Known, NamesOf;
    if k < 8 {
      var (s1, i) := HotSlot(s, base, off, k);
      HotSlotKnown(s, base, off, k);
      HotLoadSlotsKnown(s1, base, off, k + 1);
      var (s', vs) := HotLoadSlots(s, base, off, k);
      KnownLater(s1.mem[i].value, s1, s');
      assert vs[1..] == HotLoadSlots(s1, base, off, k + 1).1;
    }
  }

  lemma FreshCellKnown(s: Sym, base: Expr, off: Off, w: Width)
    requires SymKnown(s) && KnownIn(base, s)
    ensures var (s', e) := FreshCell(s, base, off, w); SymKnown(s') && KnownIn(e, s') && s.pre <= s'.pre
  {
    hide NoteAccess, SymKnown, KnownIn, Allocate;
    var (names, idx) := Allocate(s.names);
    var n := OldMem(w, idx);
    var s1 := s.(names := names, loadVars := s.loadVars + LoadBound(w, n));
    NoteAccessKeeps(s1, base, off, Len(w), CellKey(base, off, w));
    AddCellKnown(s, FreshCell(s, base, off, w).0, MemCell(base, off, w, InitMem(n), 0));
  }

  lemma LoadCellKnown(s: Sym, base: Expr, off: Off, w: Width)
    requires SymKnown(s) && KnownIn(base, s)
    ensures var (s', e) := LoadCell(s, base, off, w); SymKnown(s') && KnownIn(e, s') && s.pre <= s'.pre
  {
    hide Lookup, FreshCell, SymKnown, Known, NamesOf;
    match Lookup(s.mem, base, off, w)
    case Hit(i, _) =>
      CellKnown(s, i);
      KnownSame(s, LoadCell(s, base, off, w).0);
    case Missing => FreshCellKnown(s, base, off, w);
  }

  lemma ReadHotWideKnown(s: Sym, base: Expr, off: Off, w: Width)
    requires SymKnown(s) && KnownIn(base, s)
    ensures var (s', e) := ReadHotWide(s, base, off, w); SymKnown(s') && KnownIn(e, s') && s.pre <= s'.pre
  {
    hide HotLoadSlots, SymKnown, NamesOf;
    var (s', e) := ReadHotWide(s, base, off, w);
    if w.Dword? {
      HotLoadSlotsKnown(s, base, off, 0);
      KnownSame(HotLoadSlots(s, base, off, 0).0, s');
    } else {
      KnownSame(s, s');
    }
  }

  lemma ReadMemAtKnown(s: Sym, base: Expr, off: Off, w: Width)
    requires SymKnown(s) && KnownIn(base, s)
    ensures var (s', e) := ReadMemAt(s, base, off, w); SymKnown(s') && KnownIn(e, s') && s.pre <= s'.pre
  {
    hide LoadCell, ReadHotWide, RequestDemotion, PlanSplit, HotCovers, CanonAddr, SymKnown, Known, NamesOf;
    if w.Byte? {
      LoadCellKnown(s, base, off, w);
    } else {
      var a := CanonAddr(base, off);
      PlansKeep(s, a.root, a.disp, w);
      var s1 := if w.Dword? then PlanSplit(s, a.root, a.disp) else s;
      KnownSame(s, s1);
      PlansKeep(s1, a.root, a.disp, w);
      var s2 := RequestDemotion(s1, a.root, a.disp, w);
      KnownSame(s1, s2);
      ReadHotWideKnown(s1, base, off, w);
      LoadCellKnown(s2, base, off, w);
    }
  }

  // ----- stores -----

  lemma MaterializedKnown(s: Sym, base: Expr, off: Off, w: Width)
    requires SymKnown(s) && KnownIn(base, s)
    ensures SymKnown(Materialized(s, base, off, w)) && s.pre <= Materialized(s, base, off, w).pre
  {
    hide Lookup, ReadMemAt, SymKnown, KnownIn;
    if Lookup(s.mem, base, off, w).Missing? {
      ReadMemAtKnown(s, base, off, w);
      KnownSame(ReadMemAt(s, base, off, w).0, Materialized(s, base, off, w));
    }
  }

  lemma StoreIntoKnown(s: Sym, base: Expr, off: Off, w: Width, e: Expr)
    requires SymKnown(s) && KnownIn(e, s)
    ensures SymKnown(StoreInto(s, base, off, w, e)) && StoreInto(s, base, off, w, e).pre == s.pre
  {
    hide Lookup, SymKnown, KnownIn;
    var f := Lookup(s.mem, base, off, w);
    if f.Hit? {
      SetValueKnown(s, f.index, e);
      KnownSame(SetValue(s, f.index, e), StoreInto(s, base, off, w, e));
    }
  }

  lemma StoreCellKnown(s: Sym, base: Expr, off: Off, w: Width, e: Expr)
    requires SymKnown(s) && KnownIn(base, s) && KnownIn(e, s)
    ensures SymKnown(StoreCell(s, base, off, w, e)) && s.pre <= StoreCell(s, base, off, w, e).pre
  {
    hide Materialized, StoreInto, SymKnown, KnownIn;
    var s1 := Materialized(s, base, off, w);
    MaterializedKnown(s, base, off, w);
    KnownLater(e, s, s1);
    StoreIntoKnown(s1, base, off, w, e);
  }

  lemma {:induction false} HotStoreSlotsKnown(s: Sym, base: Expr, off: Off, imm: i64, k: nat)
    requires SymKnown(s) && KnownIn(base, s) && k <= 4
    ensures var s' := HotStoreSlots(s, base, off, imm, k); SymKnown(s') && s.pre <= s'.pre
    decreases 4 - k
  {
    hide HotSlot, SymKnown, NamesOf, SetValue, ByteOf, WrapU;
    if k < 4 {
      var (s1, i) := HotSlot(s, base, off, k);
      var b := Const(ByteOf(WrapU(imm), k));
      HotSlotKnown(s, base, off, k);
      SetValueKnown(s1, i, b);
      HotStoreSlotsKnown(SetValue(s1, i, b), base, off, imm, k + 1);
    }
  }

  lemma StoreHotKnown(s: Sym, base: Expr, off: Off, w: Width, e: Expr)
    requires SymKnown(s) && KnownIn(base, s)
    ensures SymKnown(StoreHot(s, base, off, w, e)) && s.pre <= StoreHot(s, base, off, w, e).pre
  {
    hide HotStoreSlots, SymKnown, KnownIn;
    var s' := StoreHot(s, base, off, w, e);
    if w.Word? && e.StImm? && e.width.Word? {
      HotStoreSlotsKnown(s, base, off, e.imm, 0);
      KnownSame(HotStoreSlots(s, base, off, e.imm, 0), s');
    } else {
      KnownSame(s, s');
    }
  }

  lemma StoreColdKnown(s: Sym, a: Canon, base: Expr, off: Off, w: Width, e: Expr)
    requires SymKnown(s) && KnownIn(base, s) && KnownIn(e, s)
    ensures SymKnown(StoreCold(s, a, base, off, w, e)) && s.pre <= StoreCold(s, a, base, off, w, e).pre
  {
    hide StoreCell, RequestDemotion, PlanSplit, HotIntersects, SymKnown, Known, NamesOf;
    PlansKeep(s, a.root, a.disp, w);
    var s1 := RequestDemotion(s, a.root, a.disp, w);
    KnownSame(s, s1);
    StoreCellKnown(s1, base, off, w, e);
  }

  lemma WriteMemAtKnown(s: Sym, base: Expr, off: Off, w: Width, e: Expr)
    requires SymKnown(s) && KnownIn(base, s) && KnownIn(e, s)
    ensures SymKnown(WriteMemAt(s, base, off, w, e)) && s.pre <= WriteMemAt(s, base, off, w, e).pre
  {
    hide StoreCell, StoreHot, StoreCold, HotCovers, CanonAddr, SymKnown, KnownIn;
    StoreCellKnown(s, base, off, w, e);
    StoreHotKnown(s, base, off, w, e);
    StoreColdKnown(s, CanonAddr(base, off), base, off, w, e);
  }

  // ----- whole paths -----

  ghost predicate FramesKnown(frames: seq<seq<Expr>>, s: Sym) {
    forall i, j :: 0 <= i < |frames| && 0 <= j < |frames[i]| ==> KnownIn(frames[i][j], s)
  }

  ghost predicate StateKnown(st: State) {
    SymKnown(st.s) && FramesKnown(st.frames, st.s)
  }

  lemma FramesLater(frames: seq<seq<Expr>>, s: Sym, s': Sym)
    requires FramesKnown(frames, s) && s.pre <= s'.pre
    ensures FramesKnown(frames, s')
  {
    hide KnownIn;
    forall i, j | 0 <= i < |frames| && 0 <= j < |frames[i]|
      ensures KnownIn(frames[i][j], s')
    {
      KnownLater(frames[i][j], s, s');
    }
  }

  lemma OperandKnown(s: Sym, rhs: Operand)
    requires SymKnown(s)
    ensures var (s', e) := ReadOperand(s, rhs); SymKnown(s') && KnownIn(e, s') && s.pre <= s'.pre
  {
    hide SymKnown, ReadReg, NamesOf;
    if rhs.RegOp? {
      ReadRegKnown(s, rhs.reg);
    } else {
      assert Known(ToU64(Const(rhs.imm)), NamesOf(s.pre));
    }
  }

  lemma TextKnown(op: RawOp, args: seq<Expr>, folds: bool, ns: set<Name>)
    requires KnownAll(args, ns)
    ensures Known(TextExpr(op, args, folds), ns)
  {
    hide ClosedValues, FoldedRaw, KnownAll;
  }

  lemma AluKnown(size: Size, op: AluOp, a: Expr, b: Expr, rhs: Operand, s: Sym)
    requires KnownIn(a, s) && KnownIn(b, s)
    ensures KnownIn(AluExpr(size, op, a, b, rhs), s)
  {
    hide NamesOf, TextExpr, Folds;
    KnownOne(b, NamesOf(s.pre));
    KnownTwo(a, b, NamesOf(s.pre));
    TextKnown(RawAlu(size, op), if op.Mov? then [b] else [a, b], Folds(size, op, rhs), NamesOf(s.pre));
  }

  lemma StoredKnown(w: Width, e: Expr, imm: i64, s: Sym)
    requires KnownIn(e, s)
    ensures KnownIn(StoredReg(w, e), s) && KnownIn(StoredImm(w, imm), s)
  {
    hide NamesOf;
    assert Known(ToU64(Const(imm)), NamesOf(s.pre));
  }

  lemma {:induction false} SavedKnown(s: Sym, i: nat)
    requires SymKnown(s) && i <= 5
    ensures var (s', es) := ReadSaved(s, i);
            SymKnown(s') && s.pre <= s'.pre && forall j :: 0 <= j < |es| ==> KnownIn(es[j], s')
    decreases 5 - i
  {
    hide SymKnown, KnownIn, ReadReg;
    if i < 5 {
      var (s1, e) := ReadReg(s, 6 + i);
      ReadRegKnown(s, 6 + i);
      SavedKnown(s1, i + 1);
      KnownLater(e, s1, ReadSaved(s, i).0);
    }
  }

  lemma {:induction false} RestoreKnown(s: Sym, saved: seq<Expr>, i: nat)
    requires SymKnown(s) && |saved| == 5 && i <= 5
    requires forall j :: 0 <= j < 5 ==> KnownIn(saved[j], s)
    ensures SymKnown(RestoreSym(s, saved, i)) && s.pre <= RestoreSym(s, saved, i).pre
    decreases 5 - i
  {
    hide SymKnown, KnownIn, WriteReg;
    if i < 5 {
      var s1 := WriteReg(s, 6 + i, saved[i]);
      WriteRegKnown(s, 6 + i, saved[i]);
      forall j | 0 <= j < 5
        ensures KnownIn(saved[j], s1)
      {
        KnownLater(saved[j], s, s1);
      }
      RestoreKnown(s1, saved, i + 1);
    }
  }

  /** The data part of a step, frames aside. */
  lemma StepSymKnown(insn: Insn, st: State)
    requires StateKnown(st)
    ensures SymKnown(SymStep(insn, st).s) && st.s.pre <= SymStep(insn, st).s.pre
  {
    hide SymKnown, Known, NamesOf, ReadReg, WriteReg, ReadMemAt, WriteMemAt, ReadOperand, ReadSaved, RestoreSym, AluExpr,
      TextExpr, JumpHyp, StoredReg, StoredImm, FramesKnown;
    match insn
    case Ldx(w, dst, src, off) =>
      var (s0, base) := ReadReg(st.s, src);
      ReadRegKnown(st.s, src);
      var (s1, raw) := ReadMemAt(s0, base, off, w);
      ReadMemAtKnown(s0, base, off, w);
      StoredKnown(w, raw, 0, s1);
      WriteRegKnown(s1, dst, StoredReg(w, raw));
    case Stx(w, dst, off, src) =>
      var (s1, cur) := ReadReg(st.s, src);
      ReadRegKnown(st.s, src);
      var (s2, base) := ReadReg(s1, dst);
      ReadRegKnown(s1, dst);
      KnownLater(cur, s1, s2);
      StoredKnown(w, cur, 0, s2);
      WriteMemAtKnown(s2, base, off, w, StoredReg(w, cur));
    case StoreImm(w, dst, off, imm) =>
      var (s1, base) := ReadReg(st.s, dst);
      ReadRegKnown(st.s, dst);
      StoredKnown(w, base, imm, s1);
      WriteMemAtKnown(s1, base, off, w, StoredImm(w, imm));
    case Mov(dst, rhs) =>
      OperandKnown(st.s, rhs);
      WriteRegKnown(ReadOperand(st.s, rhs).0, dst, ReadOperand(st.s, rhs).1);
    case Alu(size, op, dst, rhs) =>
      var (s1, a) := ReadReg(st.s, dst);
      ReadRegKnown(st.s, dst);
      var (s2, b) := ReadOperand(s1, rhs);
      OperandKnown(s1, rhs);
      KnownLater(a, s1, s2);
      AluKnown(size, op, a, b, rhs, s2);
      WriteRegKnown(s2, dst, AluExpr(size, op, a, b, rhs));
    case Negate(size, dst) => UnaryKnown(st.s, dst, RawAlu(size, Neg), size.Wide?);
    case Endian(dst, bytes, big) => UnaryKnown(st.s, dst, RawEndian(bytes, big), true);
    case Jump(wide, cond, dst, rhs, taken) =>
      ReadRegKnown(st.s, dst);
      OperandKnown(ReadReg(st.s, dst).0, rhs);
    case Ja =>
    case CallLocal =>
      SavedKnown(st.s, 0);
      var (s1, saved) := ReadSaved(st.s, 0);
      StackTopKnown(saved[4], s1);
      WriteRegKnown(s1, 10, Binary(NatAdd, saved[4], Const(0x1000)));
    case Return => ReturnKnown(st);
  }

  lemma UnaryKnown(s: Sym, dst: Reg, op: RawOp, folds: bool)
    requires SymKnown(s)
    ensures var (s1, a) := ReadReg(s, dst);
            var s' := WriteReg(s1, dst, TextExpr(op, [a], folds));
            SymKnown(s1) && s.pre <= s1.pre && SymKnown(s') && s.pre <= s'.pre
  {
    hide SymKnown, Known, NamesOf, ReadReg, WriteReg, TextExpr;
    var (s1, a) := ReadReg(s, dst);
    ReadRegKnown(s, dst);
    KnownOne(a, NamesOf(s1.pre));
    TextKnown(op, [a], folds, NamesOf(s1.pre));
    WriteRegKnown(s1, dst, TextExpr(op, [a], folds));
  }

  lemma StackTopKnown(e: Expr, s: Sym)
    requires KnownIn(e, s)
    ensures KnownIn(Binary(NatAdd, e, Const(0x1000)), s)
  {
    hide NamesOf;
    assert Known(Const(0x1000), NamesOf(s.pre));
  }

  lemma ReturnKnown(st: State)
    requires StateKnown(st)
    ensures SymKnown(SymStep(Return, st).s) && st.s.pre <= SymStep(Return, st).s.pre
  {
    hide SymKnown, KnownIn, RestoreSym;
    var n := |st.frames|;
    if n > 0 && |st.frames[n - 1]| == 5 {
      var saved := st.frames[n - 1];
      forall j | 0 <= j < 5
        ensures KnownIn(saved[j], st.s)
      {
        assert KnownIn(st.frames[n - 1][j], st.s);
      }
      RestoreKnown(st.s, saved, 0);
    }
  }

  lemma StepKnown(insn: Insn, st: State)
    requires StateKnown(st)
    ensures StateKnown(SymStep(insn, st))
  {
    var st' := SymStep(insn, st);
    StepSymKnown(insn, st);
    FramesLater(st.frames, st.s, st'.s);
    if insn.CallLocal? {
      CallFramesKnown(st);
    } else {
      StepFrames(insn, st);
      hide SymStep, SymKnown, KnownIn;
    }
  }

  lemma StepFrames(insn: Insn, st: State)
    requires !insn.CallLocal?
    ensures SymStep(insn, st).frames <= st.frames
  {
    hide ReadReg, WriteReg, ReadMem, WriteMem, ReadOperand, RestoreSym, AluExpr, TextExpr, JumpHyp;
  }

  lemma CallFramesKnown(st: State)
    requires StateKnown(st)
    ensures FramesKnown(SymStep(CallLocal, st).frames, SymStep(CallLocal, st).s)
  {
    hide SymKnown, KnownIn, ReadSaved, WriteReg;
    var st' := SymStep(CallLocal, st);
    var (s1, saved) := ReadSaved(st.s, 0);
    SavedKnown(st.s, 0);
    assert KnownIn(saved[4], s1);
    StackTopKnown(saved[4], s1);
    WriteRegKnown(s1, 10, Binary(NatAdd, saved[4], Const(0x1000)));
    forall i, j | 0 <= i < |st'.frames| && 0 <= j < |st'.frames[i]|
      ensures KnownIn(st'.frames[i][j], st'.s)
    {
      if i < |st.frames| {
        assert KnownIn(st.frames[i][j], st.s);
        KnownLater(st.frames[i][j], st.s, st'.s);
      } else {
        KnownLater(saved[j], s1, st'.s);
      }
    }
  }

  /** On every path, every variable is introduced by an atom before it is used. */
  lemma {:induction false} RunKnown(prog: seq<Insn>, st: State)
    requires StateKnown(st)
    ensures StateKnown(SymRun(prog, st))
  {
    hide StateKnown, SymStep;
    if |prog| > 0 {
      StepKnown(prog[0], st);
      RunKnown(prog[1..], SymStep(prog[0], st));
    }
  }

  lemma StartKnown(hot: seq<Region>, splits: map<(Root, int), int>)
    ensures StateKnown(Start(hot, splits))
  {
  }

  // ----- the assignment read off a state -----

  function Put(env: Assignment, n: Name, v: u64): Assignment {
    (m: Name) => if m == n then v else env(m)
  }

  /** What the atom's place holds in the state. */
  function Reading(a: Atom, env: Assignment, c: Conc): u64 {
    match a
    case RegAtom(r, _) => c.regs(r)
    case MemAtom(cell) => LoadWord(c.mem, CellAddr(cell, env), Len(cell.width))
  }

  /** The assignment read off a concrete state: each atom's variable gets the value found there. */
  ghost function Observe(pre: seq<Atom>, c: Conc): Assignment {
    if |pre| == 0 then ZERO
    else
      var env, last := Observe(pre[..|pre| - 1], c), pre[|pre| - 1];
      if AtomName(last).Some? then Put(env, AtomName(last).value, Reading(last, env, c)) else env
  }

  ghost predicate DistinctNames(pre: seq<Atom>) {
    (forall i :: 0 <= i < |pre| ==> AtomName(pre[i]).Some?)
    && (forall i, j :: 0 <= i < j < |pre| ==> AtomName(pre[i]) != AtomName(pre[j]))
  }

  lemma DistinctPrefix(pre: seq<Atom>)
    requires |pre| > 0 && DistinctNames(pre) && BasesKnown(pre)
    ensures DistinctNames(pre[..|pre| - 1]) && BasesKnown(pre[..|pre| - 1])
    ensures AtomName(pre[|pre| - 1]).value !in NamesOf(pre[..|pre| - 1])
  {
    hide Known, AtomName;
    var before := pre[..|pre| - 1];
    forall i | 0 <= i < |before|
      ensures AtomName(before[i]).Some? && AtomName(before[i]) != AtomName(pre[|pre| - 1])
    {
      assert before[i] == pre[i];
    }
    forall i, j | 0 <= i < j < |before|
      ensures AtomName(before[i]) != AtomName(before[j])
    {
      assert before[i] == pre[i] && before[j] == pre[j];
    }
    forall i | 0 <= i < |before| && before[i].MemAtom?
      ensures Known(before[i].cell.base, NamesOf(before[..i]))
    {
      assert before[i] == pre[i] && before[..i] == pre[..i];
    }
  }

  /** An atom survives a change of a variable it does not mention. */
  lemma AtomHoldsPut(a: Atom, ns: set<Name>, env: Assignment, n: Name, v: u64, c: Conc)
    requires AtomHolds(a, env, c) && n !in ns && Known(AtomValue(a), ns) && (a.MemAtom? ==> Known(a.cell.base, ns))
    ensures AtomHolds(a, Put(env, n, v), c)
  {
    hide Known, Mean, WrapU, Holds;
    var env' := Put(env, n, v);
    KnownMean(AtomValue(a), ns, env, env');
    if a.MemAtom? {
      KnownMean(a.cell.base, ns, env, env');
    }
  }

  /** Reading a word and holding its bytes are the same thing. */
  lemma LoadedWordHolds(m: Memory, start: u64, n: nat)
    requires n <= 8
    ensures Holds(m, start, n, LoadWord(m, start, n))
  {
    hide WrapU, ByteOf, LeValue, At;
    var bs := BytesAt(m, start, n);
    forall i | 0 <= i < n
      ensures At(m, start, i) == ByteOf(LeValue(bs), i)
    {
      ByteOfLeValue(bs, i);
    }
  }

  lemma LastHolds(a: Atom, ns: set<Name>, env: Assignment, c: Conc)
    requires AtomName(a).Some? && AtomName(a).value !in ns && (a.MemAtom? ==> Known(a.cell.base, ns))
    ensures AtomHolds(a, Put(env, AtomName(a).value, Reading(a, env, c)), c)
  {
    hide Known, WrapU, Holds, LoadWord;
    var env' := Put(env, AtomName(a).value, Reading(a, env, c));
    assert Mean(AtomValue(a), env') == Reading(a, env, c);
    if a.MemAtom? {
      hide Mean;
      KnownMean(a.cell.base, ns, env, env');
      LoadedWordHolds(c.mem, CellAddr(a.cell, env), Len(a.cell.width));
    }
  }

  lemma {:induction false} ObserveHolds(pre: seq<Atom>, c: Conc)
    requires DistinctNames(pre) && BasesKnown(pre)
    ensures forall i :: 0 <= i < |pre| ==> AtomHolds(pre[i], Observe(pre, c), c)
  {
    hide AtomHolds, Reading, Known, BasesKnown, DistinctNames;
    if |pre| > 0 {
      var before, last := pre[..|pre| - 1], pre[|pre| - 1];
      DistinctPrefix(pre);
      ObserveHolds(before, c);
      LastKnown(pre);
      LastHolds(last, NamesOf(before), Observe(before, c), c);
      forall i | 0 <= i < |before|
        ensures AtomHolds(pre[i], Observe(pre, c), c)
      {
        assert before[i] == pre[i];
        EarlierKnown(before, i);
        AtomHoldsPut(before[i], NamesOf(before), Observe(before, c), AtomName(last).value, Reading(last, Observe(before, c), c), c);
      }
    }
  }

  lemma LastKnown(pre: seq<Atom>)
    requires |pre| > 0 && DistinctNames(pre) && BasesKnown(pre)
    ensures AtomName(pre[|pre| - 1]).Some?
    ensures pre[|pre| - 1].MemAtom? ==> Known(pre[|pre| - 1].cell.base, NamesOf(pre[..|pre| - 1]))
  {
  }

  lemma EarlierKnown(pre: seq<Atom>, i: nat)
    requires i < |pre| && DistinctNames(pre) && BasesKnown(pre)
    ensures Known(AtomValue(pre[i]), NamesOf(pre)) && (pre[i].MemAtom? ==> Known(pre[i].cell.base, NamesOf(pre)))
  {
    assert AtomName(pre[i]).value in NamesOf(pre);
    if pre[i].MemAtom? {
      NamesGrow(pre[..i], pre);
      KnownMore(pre[i].cell.base, NamesOf(pre[..i]), NamesOf(pre));
    }
  }

  lemma {:induction false} ObservedBound(pre: seq<Atom>, s: Sym, c: Conc, w: Width, idx: nat)
    requires forall i :: 0 <= i < |pre| ==> AtomNamed(pre[i], s)
    ensures Observe(pre, c)(OldMem(w, idx)) < Pow256(Len(w))
  {
    hide WrapU, Pow256, Mean;
    if |pre| > 0 {
      var before, last := pre[..|pre| - 1], pre[|pre| - 1];
      ObservedBound(before, s, c, w, idx);
      assert AtomNamed(last, s);
      if last.MemAtom? {
        LeValueBound(BytesAt(c.mem, CellAddr(last.cell, Observe(before, c)), Len(last.cell.width)));
      }
    } else {
      Pow256Values();
    }
  }

  lemma NamedIsDistinct(s: Sym)
    requires NameInv(s)
    ensures DistinctNames(s.pre)
  {
    forall i, j | 0 <= i < j < |s.pre|
      ensures AtomName(s.pre[i]) != AtomName(s.pre[j])
    {
      assert AtomNamed(s.pre[i], s) && AtomNamed(s.pre[j], s);
    }
    forall i | 0 <= i < |s.pre|
      ensures AtomName(s.pre[i]).Some?
    {
      assert AtomNamed(s.pre[i], s);
    }
  }

  /** No concrete state is lost: on every path, every initial state satisfies every atom and every
      load bound of the emitted precondition under the assignment read off that state. */
  lemma PreconditionCovers(prog: seq<Insn>, hot: seq<Region>, splits: map<(Root, int), int>, c0: Conc)
    ensures var s := SymRun(prog, Start(hot, splits)).s;
            (forall i :: 0 <= i < |s.pre| ==> AtomHolds(s.pre[i], Observe(s.pre, c0), c0))
            && BoundsHold(s.loadVars, Observe(s.pre, c0))
  {
    hide SymRun, Observe, BasesKnown, SpanInv, AtomHolds, Pow2, Pow256, RegsKnown, CellsKnown, FramesKnown, AtomNamed;
    StartWf(hot, splits);
    RunWf(prog, Start(hot, splits));
    StartKnown(hot, splits);
    RunKnown(prog, Start(hot, splits));
    var s := SymRun(prog, Start(hot, splits)).s;
    NamedIsDistinct(s);
    ObserveHolds(s.pre, c0);
    forall i | 0 <= i < |s.loadVars|
      ensures Observe(s.pre, c0)(s.loadVars[i].0) < Pow2(s.loadVars[i].1)
    {
      assert BoundOfWidth(s.loadVars[i]);
      var OldMem(w, idx) := s.loadVars[i].0;
      ObservedBound(s.pre, s, c0, w, idx);
      BitsAreBytes(w);
    }
  }

  lemma MatchedSeparated(pre: seq<Atom>, mem: seq<MemCell>, env: Assignment)
    requires AtomsMatch(pre, mem) && Separated(mem, env)
    ensures Separated(MemCells(pre), env)
  {
    hide MemCells, Disjoint, Mean;
    var cells := MemCells(pre);
    forall i, j | 0 <= i < |cells| && 0 <= j < |cells| && i != j
      ensures SeparateCells(cells[i], cells[j], env)
    {
      assert SeparateCells(mem[i], mem[j], env);
      assert SameKey(cells[i], mem[i]) && SameKey(cells[j], mem[j]);
    }
  }

  /** The precondition holds of every initial state, under the assignment read off that state, in
      which cells on different roots do not overlap. */
  lemma ObservedPrecondition(prog: seq<Insn>, hot: seq<Region>, splits: map<(Root, int), int>, c0: Conc)
    requires var s := SymRun(prog, Start(hot, splits)).s;
             s.errors == [] && AcrossRoots(s.mem, Observe(s.pre, c0)) && forall i :: 0 <= i < |s.mem| ==> Bounded(s.mem[i])
    ensures var s := SymRun(prog, Start(hot, splits)).s; Hyp(s, Observe(s.pre, c0), c0)
  {
    hide SymRun, Observe, AtomHolds, BoundsHold, SeparateCells, Bounded, AtomsMatch, NameInv, SpanInv, CellCanon;
    StartWf(hot, splits);
    RunWf(prog, Start(hot, splits));
    var s := SymRun(prog, Start(hot, splits)).s;
    PreconditionCovers(prog, hot, splits, c0);
    forall i, j | 0 <= i < |s.mem| && 0 <= j < |s.mem| && i != j
      ensures SeparateCells(s.mem[i], s.mem[j], Observe(s.pre, c0))
    {
      if CellCanon(s.mem[i]).root == CellCanon(s.mem[j]).root {
        SameRootSeparated(prog, hot, splits, Observe(s.pre, c0), i, j);
      }
    }
    MatchedSeparated(s.pre, s.mem, Observe(s.pre, c0));
  }

  /** The triple speaks about every machine state. From any initial state in which cells on
      different roots do not overlap, and whose observed values satisfy the recorded path and side
      hypotheses and fit their narrow reloads, the machine follows the lifted path, ends in the
      postcondition and changes nothing else. No precondition is assumed. */
  lemma EveryStateIsCovered(prog: seq<Insn>, hot: seq<Region>, splits: map<(Root, int), int>, c0: Conc)
    requires var st := SymRun(prog, Start(hot, splits));
             var env := Observe(st.s.pre, c0);
             AllChecked(prog) && RetryPlanOf(st.s) == Ready && st.s.errors == [] && AcrossRoots(st.s.mem, env)
             && (forall i :: 0 <= i < |st.s.mem| ==> Bounded(st.s.mem[i]))
             && RunFits(prog, Start(hot, splits), env)
             && (forall i :: 0 <= i < |st.side| ==> SideHolds(st.side[i], env))
             && (forall i :: 0 <= i < |st.branches| ==> HypHolds(st.branches[i], env))
    ensures var s := SymRun(prog, Start(hot, splits)).s;
            var end := ConcRun(prog, Machine(c0, []));
            end.Some?
            && (forall i :: 0 <= i < |s.pre| ==> AtomHolds(PostAtoms(s.pre, s)[i], Observe(s.pre, c0), end.value.c))
            && Framed(MemCells(s.pre), Observe(s.pre, c0), c0.mem, end.value.c.mem)
  {
    hide SymRun, ConcRun, Observe, AcrossRoots, Bounded, RunFits, SideHolds, HypHolds, Hyp,
      AtomHolds, Framed, PostAtoms, RetryPlanOf, AllChecked;
    ObservedPrecondition(prog, hot, splits, c0);
    SymbolicExecutionSound(prog, hot, splits, Observe(SymRun(prog, Start(hot, splits)).s.pre, c0), c0);
  }
}
