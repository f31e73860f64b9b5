/** A path whose last region clause names another address than the one accessed: a byte of a dword
    that was loaded byte by byte. */
module ClauseGaps {
  import opened Words
  import opened Alu
  import opened SymExpr
  import opened SymModel
  import opened Branch
  import opened LiftSound
  import opened Lift
  import opened LiftInvariants
  import opened LiftRecords
  import opened LiftClauses

  const FIRST: Insn := Ldx(Byte, 2, 1, 3)
  const WHOLE: Insn := Ldx(Dword, 3, 1, 0)
  const AGAIN: Insn := Ldx(Byte, 4, 1, 4)
  const BYTES_PATH: seq<Insn> := [FIRST, WHOLE, AGAIN]

  const ROOT: Root := VarRoot(RegOld(1))
  const HOT: Region := Region(ROOT, 0, 8)
  const WALK_1: seq<Clause> := [Access(INPUT, 3, Byte, false)]
  const WALK_2: seq<Clause> := WALK_1 + [Access(INPUT, 0, Dword, false)]

  /** The cells in order of their making: the byte at 3, then the other slots of the dword. */
  function SlotAt(p: nat): nat
    requires p > 0
  {
    if p <= 3 then p - 1 else p
  }

  function CellAt(p: nat): MemCell {
    if p == 0 then MemCell(INPUT, 3, Byte, InitMem(OldMem(Byte, 0)), 0)
    else MemCell(INPUT, 0, Byte, InitMem(OldMem(Byte, p)), SlotAt(p))
  }

  function DispAt(p: nat): nat {
    if p == 0 then 3 else SlotAt(p)
  }

  function SpanAt(p: nat): Span
    requires p < 8
  {
    Span(ROOT, DispAt(p), DispAt(p) + 1, if p == 0 then CellKey(INPUT, 3, Byte) else HotKey(INPUT, 0, SlotAt(p)))
  }

  /** The state, as far as it matters, with the first `n` cells and the given clauses. */
  ghost predicate Shape(s: Sym, hot: seq<Region>, n: nat, walk: seq<Clause>)
    requires n <= 8
  {
    s.mem == seq(n, p requires 0 <= p < n => CellAt(p)) && s.spans == seq(n, p requires 0 <= p < n => SpanAt(p))
    && s.names == Names(n, []) && s.walk == walk && s.hot == hot && s.blobs == []
    && s.errors == [] && s.newHot == [] && s.newSplits == []
    && 1 in s.regs && s.regs[1] == INPUT
  }

  lemma InputCanon(off: i64)
    ensures CanonAddr(INPUT, off) == Canon(ROOT, off)
  {
  }

  lemma CellAtPlace(p: nat)
    ensures CellRoot(CellAt(p)) == ROOT && CellDisp(CellAt(p)) == DispAt(p)
  {
    InputCanon(3);
    InputCanon(0);
    hide CanonAddr;
  }

  lemma WriteShape(s: Sym, hot: seq<Region>, n: nat, walk: seq<Clause>, r: Reg, e: Expr)
    requires n <= 8 && Shape(s, hot, n, walk) && r != 1
    ensures Shape(WriteReg(s, r, e), hot, n, walk)
  {
  }

  // ----- the byte load -----

  lemma FirstCellShape(s: Sym, hot: seq<Region>)
    requires Shape(s, hot, 0, [])
    ensures Shape(LoadCell(s, INPUT, 3, Byte).0, hot, 1, WALK_1)
  {
    InputCanon(3);
    hide CanonAddr;
    assert Lookup(s.mem, INPUT, 3, Byte) == Missing;
    hide Lookup;
    assert Allocate(s.names) == (Names(1, []), 0);
    var s1 := s.(names := Names(1, []), loadVars := s.loadVars + []);
    assert FindConflict(s1.spans, ROOT, 3, 4, CellKey(INPUT, 3, Byte)).None?;
    hide FindConflict;
    assert NoteAccess(s1, INPUT, 3, 1, CellKey(INPUT, 3, Byte)) == s1.(spans := [SpanAt(0)]);
    hide NoteAccess;
    assert LoadBound(Byte, OldMem(Byte, 0)) == [];
    var s' := LoadCell(s, INPUT, 3, Byte).0;
    assert s'.mem == [CellAt(0)] && s'.spans == [SpanAt(0)];
  }

  lemma FirstShape(hot: seq<Region>)
    ensures Shape(SymStep(FIRST, Start(hot, map[])).s, hot, 1, WALK_1)
  {
    var s := Start(hot, map[]).s;
    var (s1, base) := ReadReg(s, 1);
    assert base == INPUT && Shape(s1, hot, 0, []);
    FirstCellShape(s1, hot);
    hide LoadCell, Shape;
    var (s2, raw) := LoadCell(s1, INPUT, 3, Byte);
    assert ReadMem(s, 1, 3, Byte) == (s2, raw);
    hide ReadMem;
    WriteShape(s2, hot, 1, WALK_1, 2, StoredReg(Byte, raw));
    hide WriteReg;
  }

  // ----- the dword load, slot by slot -----

  /** The number of cells before slot `k` is served. */
  function CountAt(k: nat): nat {
    if k <= 3 then k + 1 else k
  }

  lemma NoByteYet(s: Sym, k: nat)
    requires k < 8 && k != 3 && Shape(s, [HOT], CountAt(k), WALK_1)
    ensures FindByte(s.mem, ROOT, k).None?
    ensures FindConflict(s.spans, ROOT, k, k + 1, HotKey(INPUT, 0, k)).None?
  {
    forall p | 0 <= p < |s.mem|
      ensures !IsByteAt(s.mem[p], ROOT, k)
    {
      CellAtPlace(p);
      assert s.mem[p] == CellAt(p);
      hide CellRoot, CellDisp;
    }
    forall p | 0 <= p < |s.spans|
      ensures !Conflicts(s.spans[p], ROOT, k, k + 1, HotKey(INPUT, 0, k))
    {
      assert s.spans[p] == SpanAt(p);
    }
    hide FindByte, FindConflict;
  }

  lemma SlotNoted(s: Sym, n: nat, k: nat)
    requires 0 < n < 8 && k == SlotAt(n) < 8 && FindConflict(s.spans, ROOT, k, k + 1, HotKey(INPUT, 0, k)).None?
    ensures NoteAccess(s, INPUT, k, 1, HotKey(INPUT, 0, k)) == s.(spans := s.spans + [SpanAt(n)])
  {
    InputCanon(k);
    hide CanonAddr, FindConflict;
  }

  /** One more cell with its span is the next shape. */
  lemma ShapeGrows(s: Sym, s': Sym, n: nat)
    requires n < 8 && Shape(s, [HOT], n, WALK_1)
    requires s'.mem == s.mem + [CellAt(n)] && s'.spans == s.spans + [SpanAt(n)] && s'.names == Names(n + 1, [])
    requires s'.walk == s.walk && s'.hot == s.hot && s'.blobs == s.blobs && s'.errors == s.errors
    requires s'.newHot == s.newHot && s'.newSplits == s.newSplits && s'.regs == s.regs
    ensures Shape(s', [HOT], n + 1, WALK_1)
  {
    hide CellAt, SpanAt;
  }

  lemma FreshSlotShape(s: Sym, k: nat)
    requires k < 8 && k != 3 && Shape(s, [HOT], CountAt(k), WALK_1)
    ensures Shape(HotSlot(s, INPUT, 0, k).0, [HOT], CountAt(k + 1), WALK_1)
  {
    InputCanon(0);
    NoByteYet(s, k);
    hide CanonAddr, FindByte, FindConflict, NoteAccess;
    var n := CountAt(k);
    assert SlotAt(n) == k && CountAt(k + 1) == n + 1 && s.names == Names(n, []);
    var s1 := s.(names := Names(n + 1, []), loadVars := s.loadVars + [(OldMem(Byte, n), 8)]);
    var s2 := AddCell(s1, CellAt(n));
    SlotNoted(s2, n, k);
    assert FreshSlot(s, INPUT, 0, k) == s2.(spans := s.spans + [SpanAt(n)]);
    hide FreshSlot;
    ShapeGrows(s, s2.(spans := s.spans + [SpanAt(n)]), n);
    hide Shape, CellAt, SpanAt;
  }

  lemma ReusedSlotShape(s: Sym)
    requires Shape(s, [HOT], 4, WALK_1)
    ensures Shape(HotSlot(s, INPUT, 0, 3).0, [HOT], 4, WALK_1)
  {
    InputCanon(0);
    CellAtPlace(0);
    hide CanonAddr;
    assert s.mem[0] == CellAt(0) && IsByteAt(s.mem[0], ROOT, 3);
    hide FindByte;
    assert FindByte(s.mem, ROOT, 3).Some?;
    hide HasBound;
  }

  lemma {:induction false} SlotsShape(s: Sym, k: nat)
    requires k <= 8 && Shape(s, [HOT], CountAt(k), WALK_1)
    ensures Shape(HotLoadSlots(s, INPUT, 0, k).0, [HOT], 8, WALK_1)
    decreases 8 - k
  {
    hide Shape, HotSlot;
    if k < 8 {
      if k == 3 {
        ReusedSlotShape(s);
      } else {
        FreshSlotShape(s, k);
      }
      SlotsShape(HotSlot(s, INPUT, 0, k).0, k + 1);
    }
  }

  lemma HotReadShape(s: Sym)
    requires Shape(s, [HOT], 1, WALK_1)
    ensures Shape(ReadHotWide(s, INPUT, 0, Dword).0, [HOT], 8, WALK_2)
  {
    SlotsShape(s, 0);
    hide HotLoadSlots, CellAt, SpanAt;
  }

  lemma WholeIsHot(s: Sym)
    requires Shape(s, [HOT], 1, WALK_1)
    ensures ReadMem(s, 1, 0, Dword) == ReadHotWide(s, INPUT, 0, Dword)
  {
    InputCanon(0);
    hide CanonAddr, ReadHotWide, LoadCell, RequestDemotion;
    assert ReadReg(s, 1) == (s, INPUT) && PlanSplit(s, ROOT, 0) == s;
    assert Covers(s.hot[0], ROOT, 0, 8);
    assert HotCovers(s.hot, ROOT, 0, 8);
    hide Shape, HotCovers, PlanSplit, ReadReg;
  }

  lemma WholeShape(st: State)
    requires Shape(st.s, [HOT], 1, WALK_1)
    ensures Shape(SymStep(WHOLE, st).s, [HOT], 8, WALK_2)
  {
    hide ReadMem, Shape, WriteReg, ReadHotWide;
    WholeIsHot(st.s);
    HotReadShape(st.s);
    var (s1, raw) := ReadMem(st.s, 1, 0, Dword);
    WriteShape(s1, [HOT], 8, WALK_2, 3, StoredReg(Dword, raw));
  }

  // ----- the byte of the dword -----

  lemma FoundAgain(s: Sym)
    requires Shape(s, [HOT], 8, WALK_2)
    ensures Lookup(s.mem, INPUT, 4, Byte) == Hit(4, true) && s.mem[4] == CellAt(4)
  {
    InputCanon(4);
    hide CanonAddr;
    assert s.mem[4] == CellAt(4);
    CellAtPlace(4);
    var x := FindExact(s.mem, INPUT, 4, Byte);
    assert x.Some? ==> s.mem[x.value] == CellAt(x.value);
    var f := FindCanon(s.mem, ROOT, 4, Byte);
    assert IsCanonAt(s.mem[4], ROOT, 4, Byte);
    if f.Some? {
      CellAtPlace(f.value);
      assert s.mem[f.value] == CellAt(f.value);
      hide CellRoot, CellDisp;
    }
    hide FindCanon, FindExact;
  }

  lemma AgainStep(st: State)
    requires Shape(st.s, [HOT], 8, WALK_2)
    ensures var s := SymStep(AGAIN, st).s;
            RetryPlanOf(s) == Ready && s.errors == [] && s.walk == WALK_2 + [Access(INPUT, 0, Byte, false)]
    ensures StepVisits(AGAIN, st.s) == [Visit(Touch(INPUT, 4, Byte, false), 4)]
  {
    FoundAgain(st.s);
    hide Lookup;
    assert ReadReg(st.s, 1) == (st.s, INPUT);
    assert CellAt(4).delta == 4;
    var (s1, raw) := ReadMem(st.s, 1, 4, Byte);
    assert s1 == UseCell(st.s, INPUT, 4, Byte, 4, true, false);
    hide ReadMem, UseCell;
  }

  lemma OneVisit(insn: Insn, s: Sym)
    requires insn.Ldx?
    ensures |StepVisits(insn, s)| == 1
  {
  }

  // ----- the first pass -----

  lemma FirstPassAsks(st: State)
    requires Shape(st.s, [], 1, WALK_1)
    ensures var s := SymStep(WHOLE, st).s; s.newHot == [HOT] && s.newSplits == [] && s.blobs == []
  {
    InputCanon(0);
    CellAtPlace(0);
    hide CanonAddr;
    var s := st.s;
    assert s.mem[0] == CellAt(0) && Clashes(s.mem[0], ROOT, 0, Dword);
    assert ClashHull(s.mem, 0, ROOT, 0, Dword) == HOT;
    assert ClashHull(s.mem, 1, ROOT, 0, Dword) == HOT;
    hide CellRoot, CellDisp, ClashHull;
    assert RequestDemotion(s, ROOT, 0, Dword) == s.(newHot := [HOT]);
    assert ReadReg(s, 1) == (s, INPUT) && PlanSplit(s, ROOT, 0) == s && !HotCovers(s.hot, ROOT, 0, 8);
    hide RequestDemotion, PlanSplit, LoadCell, HotCovers;
    var s1 := s.(newHot := [HOT]);
    LoadAsksNothing(s1, INPUT, 0, Dword);
    assert ReadMem(s, 1, 0, Dword) == LoadCell(s1, INPUT, 0, Dword);
    hide ReadMem;
  }

  lemma LoadAsksNothing(s: Sym, base: Expr, off: Off, w: Width)
    ensures var s' := LoadCell(s, base, off, w).0; s'.newHot == s.newHot && s'.newSplits == s.newSplits && s'.blobs == s.blobs
  {
    hide Lookup, NoteAccess;
    var (names, idx) := Allocate(s.names);
    var n := OldMem(w, idx);
    NoteAccessKeeps(s.(names := names, loadVars := s.loadVars + LoadBound(w, n)), base, off, Len(w), CellKey(base, off, w));
  }

  lemma ByteAsksNothing(st: State)
    ensures var s := SymStep(AGAIN, st).s; s.newHot == st.s.newHot && s.newSplits == st.s.newSplits
  {
    hide LoadCell;
    var (s1, base) := ReadReg(st.s, 1);
    LoadAsksNothing(s1, base, 4, Byte);
    assert ReadMem(st.s, 1, 4, Byte) == LoadCell(s1, base, 4, Byte);
    hide ReadMem;
  }

  lemma PathUnfolds(st: State)
    ensures var st1 := SymStep(FIRST, st);
            SymRun(BYTES_PATH, st) == SymStep(AGAIN, SymStep(WHOLE, st1))
            && Visits(BYTES_PATH, st)
               == StepVisits(FIRST, st.s) + StepVisits(WHOLE, st1.s) + StepVisits(AGAIN, SymStep(WHOLE, st1).s)
  {
    hide SymStep, StepVisits;
    var st1 := SymStep(FIRST, st);
    var st2 := SymStep(WHOLE, st1);
    var st3 := SymStep(AGAIN, st2);
    assert BYTES_PATH[1..] == [WHOLE, AGAIN] && [WHOLE, AGAIN][1..] == [AGAIN] && [AGAIN][1..] == [];
    assert SymRun([], st3) == st3 && Visits([], st3) == [];
    assert SymRun([AGAIN], st2) == st3 && Visits([AGAIN], st2) == StepVisits(AGAIN, st2.s);
    assert SymRun([WHOLE, AGAIN], st1) == st3;
    assert Visits([WHOLE, AGAIN], st1) == StepVisits(WHOLE, st1.s) + StepVisits(AGAIN, st2.s);
  }

  /** The condition on slots is needed. The first pass over the path asks for exactly this region;
      the second is finished, without errors; and its third clause names the first byte of the
      dword under every assignment, although the third load reads the fifth. */
  lemma SlotClauseGap(env: Assignment)
    ensures RetryPlanOf(SymRun(BYTES_PATH, Start([], map[])).s) == HotRegions([HOT])
    ensures var s := SymRun(BYTES_PATH, Start([HOT], map[])).s;
            var visits := Visits(BYTES_PATH, Start([HOT], map[]));
            Clean(s) && |s.walk| == 3 && |visits| == 3
            && s.walk[2] == Access(INPUT, 0, Byte, false) && visits[2] == Visit(Touch(INPUT, 4, Byte, false), 4)
            && ClauseAddr(s.walk[2], env) != TouchAddr(visits[2].touch, env)
  {
    hide SymStep, Shape, StepVisits, SymRun, Visits;
    FirstShape([]);
    PathUnfolds(Start([], map[]));
    FirstPassAsks(SymStep(FIRST, Start([], map[])));
    ByteAsksNothing(SymStep(WHOLE, SymStep(FIRST, Start([], map[]))));

    FirstShape([HOT]);
    PathUnfolds(Start([HOT], map[]));
    var st1 := SymStep(FIRST, Start([HOT], map[]));
    OneVisit(FIRST, Start([HOT], map[]).s);
    OneVisit(WHOLE, st1.s);
    WholeShape(st1);
    AgainStep(SymStep(WHOLE, st1));
    WrapShift(Mean(INPUT, env), 4);
  }
}
