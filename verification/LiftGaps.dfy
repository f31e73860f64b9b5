/** A path on which the emitted triple is wrong: a dword variable is stored as a halfword and
    reloaded as one. */
module LiftGaps {
  import opened Words
  import opened Alu
  import opened SymExpr
  import opened SymModel
  import opened Branch
  import opened LiftSound
  import opened Lift
  import opened LiftInvariants

  const LOAD: Insn := Ldx(Dword, 2, 1, 0)
  const STORE: Insn := Stx(Halfword, 1, 8, 2)
  const RELOAD: Insn := Ldx(Halfword, 3, 1, 8)
  const PATH: seq<Insn> := [LOAD, STORE, RELOAD]

  const WIDE: Expr := InitMem(OldMem(Dword, 0))
  const HALF: Expr := InitMem(OldMem(Halfword, 1))
  const ROOT: Root := VarRoot(RegOld(1))

  const CELL_A: MemCell := MemCell(INPUT, 0, Dword, WIDE, 0)
  const CELL_B: MemCell := MemCell(INPUT, 8, Halfword, HALF, 0)
  const SPAN_A: Span := Span(ROOT, 0, 8, CellKey(INPUT, 0, Dword))
  const SPAN_B: Span := Span(ROOT, 8, 10, CellKey(INPUT, 8, Halfword))

  const PRE_2: seq<Atom> := [RegAtom(1, INPUT), MemAtom(CELL_A), RegAtom(2, InitReg(RegOld(2)))]

  function SymAfter(
    regs: map<Reg, Expr>, pre: seq<Atom>, mem: seq<MemCell>, names: nat,
    loadVars: seq<(Name, nat)>, walk: seq<Clause>, spans: seq<Span>): Sym
  {
    Sym(regs, pre, mem, Names(names, []), loadVars, walk, spans, [], None, [], [], [], [], map[], [])
  }

  /** After the dword load. */
  function Loaded1(): Sym {
    SymAfter(map[1 := INPUT, 2 := WIDE], PRE_2, [CELL_A], 1, [(OldMem(Dword, 0), 64)],
             [Access(INPUT, 0, Dword, false)], [SPAN_A])
  }

  /** After the halfword store. */
  function Stored2(): Sym {
    SymAfter(map[1 := INPUT, 2 := WIDE], PRE_2 + [MemAtom(CELL_B)], [CELL_A, CELL_B.(value := WIDE)], 2,
             [(OldMem(Dword, 0), 64), (OldMem(Halfword, 1), 16)],
             [Access(INPUT, 0, Dword, false), Access(INPUT, 8, Halfword, true)], [SPAN_A, SPAN_B])
  }

  /** After the halfword reload. */
  function Reloaded3(): Sym {
    Stored2().(regs := map[1 := INPUT, 2 := WIDE, 3 := WIDE],
               pre := PRE_2 + [MemAtom(CELL_B), RegAtom(3, InitReg(RegOld(3)))],
               walk := Stored2().walk + [Access(INPUT, 8, Halfword, false)])
  }

  lemma InputCanon(off: Off)
    ensures CanonAddr(INPUT, off) == Canon(ROOT, off)
  {
  }

  const START: Sym := SymAfter(map[1 := INPUT], [RegAtom(1, INPUT)], [], 0, [], [], [])
  const LOADED: Sym := SymAfter(map[1 := INPUT], [RegAtom(1, INPUT), MemAtom(CELL_A)], [CELL_A], 1,
                                [(OldMem(Dword, 0), 64)], [Access(INPUT, 0, Dword, false)], [SPAN_A])

  lemma FirstCell()
    ensures FreshCell(START, INPUT, 0, Dword) == (LOADED, WIDE)
  {
    InputCanon(0);
    hide CanonAddr;
    var key := CellKey(INPUT, 0, Dword);
    var s1 := START.(names := Names(1, []), loadVars := [(OldMem(Dword, 0), 64)]);
    assert FindConflict(s1.spans, ROOT, 0, 8, key).None?;
    hide FindConflict;
    assert NoteAccess(s1, INPUT, 0, 8, key) == s1.(spans := [SPAN_A]);
    hide NoteAccess;
    assert Allocate(START.names) == (Names(1, []), 0);
    assert START.loadVars + LoadBound(Dword, OldMem(Dword, 0)) == [(OldMem(Dword, 0), 64)];
    assert START.mem + [CELL_A] == LOADED.mem && START.pre + [MemAtom(CELL_A)] == LOADED.pre;
    assert START.walk + [Access(INPUT, 0, Dword, false)] == LOADED.walk;
  }

  lemma FirstLoad()
    ensures ReadMemAt(START, INPUT, 0, Dword) == (LOADED, WIDE)
  {
    InputCanon(0);
    FirstCell();
    hide CanonAddr, FreshCell;
    assert Lookup(START.mem, INPUT, 0, Dword) == Missing;
    assert PlanSplit(START, ROOT, 0) == START && RequestDemotion(START, ROOT, 0, Dword) == START;
    assert !HotCovers(START.hot, ROOT, 0, 8);
  }

  lemma LoadStep()
    ensures SymStep(LOAD, Start([], map[])) == State(Loaded1(), [], [], [])
  {
    FirstLoad();
    hide ReadMemAt;
    var none: map<Reg, Expr> := map[];
    assert none[1 := INPUT] == map[1 := INPUT] && [] + [RegAtom(1, INPUT)] == [RegAtom(1, INPUT)];
    assert ReadReg(WithRetryPlans([], map[]), 1) == (START, INPUT);
    assert WriteReg(LOADED, 2, WIDE) == Loaded1();
  }

  lemma NoClash(s: Sym)
    requires s.mem == [CELL_A] || s.mem == [CELL_A, CELL_B.(value := WIDE)]
    requires s.hot == []
    ensures RequestDemotion(s, ROOT, 8, Halfword) == s
    ensures !HotCovers(s.hot, ROOT, 8, 10) && !HotIntersects(s.hot, ROOT, 8, 10)
  {
    InputCanon(0);
    InputCanon(8);
    hide CanonAddr;
    forall i | 0 <= i < |s.mem|
      ensures !Clashes(s.mem[i], ROOT, 8, Halfword)
    {
      assert s.mem[i] == CELL_A || s.mem[i] == CELL_B.(value := WIDE);
    }
  }

  lemma FirstStoreCell()
    ensures Lookup([CELL_A], INPUT, 8, Halfword) == Missing
    ensures forall v :: Lookup([CELL_A, CELL_B.(value := v)], INPUT, 8, Halfword) == Hit(1, false)
  {
    InputCanon(0);
    InputCanon(8);
    hide CanonAddr;
    forall v
      ensures Lookup([CELL_A, CELL_B.(value := v)], INPUT, 8, Halfword) == Hit(1, false)
    {
      var mem := [CELL_A, CELL_B.(value := v)];
      assert IsExact(mem[1], INPUT, 8, Halfword) && !IsExact(mem[0], INPUT, 8, Halfword);
      assert FindExact(mem, INPUT, 8, Halfword) == Some(1);
    }
  }

  const STORED_MEM: Sym := Stored2().(mem := [CELL_A, CELL_B], walk := [Access(INPUT, 0, Dword, false)])

  lemma SecondCell()
    ensures FreshCell(Loaded1(), INPUT, 8, Halfword).0
            == STORED_MEM.(walk := STORED_MEM.walk + [Access(INPUT, 8, Halfword, false)])
  {
    InputCanon(8);
    SecondSpan();
    hide CanonAddr, FindConflict;
    var s := Loaded1();
    var key := CellKey(INPUT, 8, Halfword);
    var s1 := s.(names := Names(2, []), loadVars := Stored2().loadVars);
    assert NoteAccess(s1, INPUT, 8, 2, key) == s1.(spans := [SPAN_A, SPAN_B]);
    hide NoteAccess;
    assert Allocate(s.names) == (Names(2, []), 1);
    assert s.loadVars + LoadBound(Halfword, OldMem(Halfword, 1)) == Stored2().loadVars;
  }

  lemma StoreMaterializes()
    ensures Materialized(Loaded1(), INPUT, 8, Halfword) == STORED_MEM
  {
    var s := Loaded1();
    InputCanon(8);
    NoClash(s);
    FirstStoreCell();
    SecondCell();
    hide CanonAddr, Lookup, RequestDemotion, HotCovers, FreshCell;
    assert ReadMemAt(s, INPUT, 8, Halfword) == FreshCell(s, INPUT, 8, Halfword);
    hide ReadMemAt;
  }

  lemma SecondSpan()
    ensures FindConflict([SPAN_A], ROOT, 8, 10, CellKey(INPUT, 8, Halfword)).None?
  {
    assert !Conflicts(SPAN_A, ROOT, 8, 10, CellKey(INPUT, 8, Halfword));
  }

  lemma StoreEffect()
    ensures StoreCell(Loaded1(), INPUT, 8, Halfword, WIDE) == Stored2()
  {
    StoreMaterializes();
    FirstStoreCell();
    assert CELL_B == CELL_B.(value := HALF);
    hide Lookup, Materialized;
    var s := STORED_MEM;
    assert s.mem[1 := s.mem[1].(value := WIDE)] == Stored2().mem;
    assert SetValue(s, 1, WIDE) == s.(mem := Stored2().mem);
    hide SetValue;
    assert s.walk + [Access(INPUT, 8, Halfword, true)] == Stored2().walk;
    assert StoreInto(s, INPUT, 8, Halfword, WIDE) == Stored2();
  }

  lemma StoreWrite()
    ensures WriteMemAt(Loaded1(), INPUT, 8, Halfword, WIDE) == Stored2()
  {
    hide CanonAddr, RequestDemotion, HotCovers, HotIntersects, StoreCell, StoreCold, StoreHot;
    var s := Loaded1();
    InputCanon(8);
    NoClash(s);
    StoreEffect();
    StoreColdEffect(s);
  }

  lemma StoreStep()
    ensures SymStep(STORE, State(Loaded1(), [], [], [])) == State(Stored2(), [], [], [])
  {
    hide WriteMemAt;
    StoreWrite();
    var s := Loaded1();
    assert ReadReg(s, 2) == (s, WIDE) && ReadReg(s, 1) == (s, INPUT);
  }

  lemma StoreColdEffect(s: Sym)
    requires RequestDemotion(s, ROOT, 8, Halfword) == s && !HotIntersects(s.hot, ROOT, 8, 10)
    requires StoreCell(s, INPUT, 8, Halfword, WIDE) == Stored2()
    ensures StoreCold(s, Canon(ROOT, 8), INPUT, 8, Halfword, WIDE) == Stored2()
  {
    hide RequestDemotion, HotIntersects, StoreCell;
  }

  lemma ReloadRead()
    ensures ReadMem(Stored2(), 1, 8, Halfword) == (NoteClause(Stored2(), Access(INPUT, 8, Halfword, false)), WIDE)
  {
    var s := Stored2();
    InputCanon(8);
    NoClash(s);
    FirstStoreCell();
    hide CanonAddr, Lookup, RequestDemotion, HotCovers;
    assert LoadCell(s, INPUT, 8, Halfword) == (NoteClause(s, Access(INPUT, 8, Halfword, false)), WIDE);
    hide LoadCell;
    assert ReadMemAt(s, INPUT, 8, Halfword) == LoadCell(s, INPUT, 8, Halfword);
    hide ReadMemAt;
    assert ReadReg(s, 1) == (s, INPUT);
  }

  lemma ReloadStep()
    ensures SymStep(RELOAD, State(Stored2(), [], [], [])) == State(Reloaded3(), [], [], [])
  {
    ReloadRead();
    hide ReadMem;
    assert WriteReg(NoteClause(Stored2(), Access(INPUT, 8, Halfword, false)), 3, WIDE) == Reloaded3();
  }

  lemma PathState()
    ensures SymRun(PATH, Start([], map[])) == State(Reloaded3(), [], [], [])
  {
    LoadStep();
    StoreStep();
    ReloadStep();
    hide SymStep;
    assert PATH[1..] == [STORE, RELOAD] && [STORE, RELOAD][1..] == [RELOAD] && [RELOAD][1..] == [];
    assert SymRun([RELOAD], State(Stored2(), [], [], [])) == State(Reloaded3(), [], [], []);
    assert SymRun([STORE, RELOAD], State(Loaded1(), [], [], [])) == State(Reloaded3(), [], [], []);
  }

  // ----- a state that satisfies the precondition -----

  /** The dword at address 0 is 0x1_0000, everything else is 0. */
  const VALUES: Assignment := (n: Name) => if n == OldMem(Dword, 0) then 0x1_0000 else 0
  const MACHINE: Conc := Conc((r: Reg) => 0, (a: u64) => if a == 2 then 1 else 0)

  lemma BytesHold()
    ensures Holds(MACHINE.mem, 0, 8, 0x1_0000) && Holds(MACHINE.mem, 8, 2, 0)
  {
    Pow256Values();
    forall i | 0 <= i < 8
      ensures At(MACHINE.mem, 0, i) == ByteOf(0x1_0000, i)
    {
      WideByte(i);
    }
  }

  lemma WideByte(i: nat)
    requires i < 8
    ensures ByteOf(0x1_0000, i) == if i == 2 then 1 else 0
  {
    Pow256Values();
    assert Pow256(3) == 0x100_0000;
    if i > 2 {
      Pow256Grows(3, i);
      assert 0x1_0000 / Pow256(i) == 0 by {
        SmallQuotient(0x1_0000, Pow256(i));
      }
    }
  }

  lemma SmallQuotient(v: nat, p: nat)
    requires v < p
    ensures v / p == 0
  {
  }

  lemma PathCells()
    ensures MemCells(Reloaded3().pre) == [CELL_A, CELL_B]
  {
    var p1: seq<Atom> := [RegAtom(1, INPUT)];
    var p2, p3 := p1 + [MemAtom(CELL_A)], PRE_2;
    var p4 := p3 + [MemAtom(CELL_B)];
    MemCellsAppend([], RegAtom(1, INPUT));
    MemCellsAppend(p1, MemAtom(CELL_A));
    MemCellsAppend(p2, RegAtom(2, InitReg(RegOld(2))));
    MemCellsAppend(p3, MemAtom(CELL_B));
    MemCellsAppend(p4, RegAtom(3, InitReg(RegOld(3))));
    hide MemCells;
    assert [] + p1 == p1 && p2 + [RegAtom(2, InitReg(RegOld(2)))] == p3;
    assert p4 + [RegAtom(3, InitReg(RegOld(3)))] == Reloaded3().pre;
    assert MemCells([]) == [] by { NoCells(); }
  }

  lemma NoCells()
    ensures MemCells([]) == []
  {
  }

  lemma CellsApart()
    ensures Separated([CELL_A, CELL_B], VALUES)
  {
    assert CellAddr(CELL_A, VALUES) == 0 && CellAddr(CELL_B, VALUES) == 8;
    assert Disjoint(0, 8, 8, 2) && Disjoint(8, 2, 0, 8);
  }

  lemma PathAssumed()
    ensures Assumed(State(Reloaded3(), [], [], []), VALUES, MACHINE)
  {
    BytesHold();
    PathCells();
    CellsApart();
    Pow2Values();
    hide MemCells, Holds, Separated, Pow2;
    var s := Reloaded3();
    assert CellAddr(CELL_A, VALUES) == 0 && CellAddr(CELL_B, VALUES) == 8;
    assert AtomHolds(MemAtom(CELL_A), VALUES, MACHINE) && AtomHolds(MemAtom(CELL_B), VALUES, MACHINE);
  }

  // ----- the postcondition fails -----

  lemma StepsRun(k: Machine)
    ensures ConcStep(LOAD, k).Some? && ConcStep(STORE, k).Some? && ConcStep(RELOAD, k).Some?
    ensures ConcStep(RELOAD, k).value.c.regs(3) < 0x1_0000
  {
    hide WrapU, Pow256, LeValue;
    LeValueBound(BytesAt(k.c.mem, WrapU(k.c.regs(1) + 8), 2));
    Pow256Values();
  }

  /** Whatever is in memory, the machine's `r3` is below 2^16 at the end. */
  lemma PathRuns(c: Conc)
    ensures ConcRun(PATH, Machine(c, [])).Some?
    ensures ConcRun(PATH, Machine(c, [])).value.c.regs(3) < 0x1_0000
  {
    hide ConcStep;
    var k0 := Machine(c, []);
    StepsRun(k0);
    var k1 := ConcStep(LOAD, k0).value;
    StepsRun(k1);
    var k2 := ConcStep(STORE, k1).value;
    StepsRun(k2);
    var k3 := ConcStep(RELOAD, k2).value;
    assert PATH[1..] == [STORE, RELOAD] && [STORE, RELOAD][1..] == [RELOAD] && [RELOAD][1..] == [];
    assert ConcRun([RELOAD], k2) == Some(k3);
    assert ConcRun([STORE, RELOAD], k1) == Some(k3);
  }

  /** The condition on narrow loads is needed. The path is finished, without errors; the machine
      state satisfies the precondition and every recorded hypothesis; and the machine ends in a
      state that violates the atom of `r3` in the postcondition. */
  lemma NarrowReloadGap()
    ensures var st := SymRun(PATH, Start([], map[]));
            var end := ConcRun(PATH, Machine(MACHINE, []));
            AllChecked(PATH) && RetryPlanOf(st.s) == Ready && st.s.errors == [] && Assumed(st, VALUES, MACHINE)
            && end.Some? && |st.s.pre| == 5 && st.s.pre[4].RegAtom? && st.s.pre[4].reg == 3
            && !AtomHolds(PostAtoms(st.s.pre, st.s)[4], VALUES, end.value.c)
  {
    hide SymRun, ConcRun, Assumed;
    PathState();
    PathAssumed();
    PathRuns(MACHINE);
    var s := Reloaded3();
    assert PostAtoms(s.pre, s)[4] == PostAtom(s.pre[4], s);
    assert PostAtom(s.pre[4], s) == RegAtom(3, WIDE);
  }
}
