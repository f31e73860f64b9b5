/** A finished path with overlapping cells: a dword whose footprint runs past the end of the signed
    range is recorded with a wrapped end, and a byte inside it is then accepted. */
module SpanGaps {
  import opened Words
  import opened Alu
  import opened SymExpr
  import opened SymModel
  import opened Branch
  import opened LiftSound
  import opened Lift
  import opened LiftInvariants

  const TOP: i64 := 0x7fff_ffff_ffff_fffc
  const SET: Insn := Insn.Mov(2, ImmOp(TOP))
  const ADD: Insn := Insn.Alu(Wide, Add, 1, RegOp(2))
  const DWORD: Insn := Ldx(Dword, 3, 1, 0)
  const BYTE: Insn := Ldx(Byte, 4, 1, 1)
  const HIGH_PATH: seq<Insn> := [SET, ADD, DWORD, BYTE]

  const ROOT: Root := VarRoot(RegOld(1))
  const HIGH: Expr := Binary(WrapAdd, INPUT, ToU64(Const(TOP)))
  const CELL_D: MemCell := MemCell(HIGH, 0, Dword, InitMem(OldMem(Dword, 0)), 0)
  const CELL_B: MemCell := MemCell(HIGH, 1, Byte, InitMem(OldMem(Byte, 1)), 0)
  const SPAN_D: Span := Span(ROOT, TOP, TOP + 8 - TWO64, CellKey(HIGH, 0, Dword))
  const SPAN_B: Span := Span(ROOT, TOP + 1, TOP + 2, CellKey(HIGH, 1, Byte))

  /** The state, as far as it matters. */
  ghost predicate Shape(s: Sym, mem: seq<MemCell>, spans: seq<Span>) {
    s.mem == mem && s.spans == spans && s.names == Names(|mem|, [])
    && s.hot == [] && s.blobs == [] && s.errors == [] && s.newHot == [] && s.newSplits == []
    && 1 in s.regs && s.regs[1] == HIGH
  }

  lemma HighCanon(off: Off)
    requires off == 0 || off == 1
    ensures CanonAddr(HIGH, off) == Canon(ROOT, TOP + off)
  {
    assert ConstOf(ToU64(Const(TOP))) == Some(TOP);
    assert Peel(HIGH) == Some(Peeled(INPUT, TOP));
    assert WrapI(off + TOP) == TOP + off;
    assert CanonGo(INPUT, TOP + off) == Some(Canon(ROOT, TOP + off));
  }

  lemma WriteShape(s: Sym, mem: seq<MemCell>, spans: seq<Span>, r: Reg, e: Expr)
    requires Shape(s, mem, spans) && r != 1
    ensures Shape(WriteReg(s, r, e), mem, spans)
  {
  }

  lemma AddShape()
    ensures Shape(SymStep(ADD, SymStep(SET, Start([], map[]))).s, [], [])
  {
    var s1 := SymStep(SET, Start([], map[])).s;
    assert s1.regs[2] == ToU64(Const(TOP)) && 1 !in s1.regs;
    var s2 := ReadReg(s1, 1).0;
    assert s2.regs[1] == INPUT && s2.regs[2] == ToU64(Const(TOP));
    assert ReadOperand(s2, RegOp(2)) == (s2, ToU64(Const(TOP)));
    assert AluExpr(Wide, Add, INPUT, ToU64(Const(TOP)), RegOp(2)) == HIGH;
  }

  lemma DwordCell(s: Sym)
    requires Shape(s, [], [])
    ensures Shape(LoadCell(s, HIGH, 0, Dword).0, [CELL_D], [SPAN_D])
  {
    HighCanon(0);
    hide CanonAddr;
    assert Lookup(s.mem, HIGH, 0, Dword) == Missing;
    hide Lookup;
    assert Allocate(s.names) == (Names(1, []), 0);
    var key := CellKey(HIGH, 0, Dword);
    var s1 := s.(names := Names(1, []), loadVars := s.loadVars + LoadBound(Dword, OldMem(Dword, 0)));
    assert FindConflict(s1.spans, ROOT, TOP, TOP + 8 - TWO64, key).None?;
    assert WrapI(TOP + 8) == TOP + 8 - TWO64;
    hide FindConflict;
    assert NoteAccess(s1, HIGH, 0, 8, key) == s1.(spans := [SPAN_D]);
    hide NoteAccess;
  }

  lemma DwordShape(st: State)
    requires Shape(st.s, [], [])
    ensures Shape(SymStep(DWORD, st).s, [CELL_D], [SPAN_D])
  {
    HighCanon(0);
    hide CanonAddr;
    var s := st.s;
    DwordCell(s);
    hide LoadCell;
    assert ReadReg(s, 1) == (s, HIGH) && PlanSplit(s, ROOT, TOP) == s && RequestDemotion(s, ROOT, TOP, Dword) == s;
    assert !HotCovers(s.hot, ROOT, TOP, TOP + 8);
    hide PlanSplit, RequestDemotion, HotCovers, Shape;
    assert ReadMem(s, 1, 0, Dword) == LoadCell(s, HIGH, 0, Dword);
    hide ReadMem, WriteReg;
    var (s1, raw) := LoadCell(s, HIGH, 0, Dword);
    WriteShape(s1, [CELL_D], [SPAN_D], 3, StoredReg(Dword, raw));
  }

  lemma ByteCell(s: Sym)
    requires Shape(s, [CELL_D], [SPAN_D])
    ensures Shape(LoadCell(s, HIGH, 1, Byte).0, [CELL_D, CELL_B], [SPAN_D, SPAN_B])
  {
    HighCanon(1);
    hide CanonAddr;
    assert !IsExact(CELL_D, HIGH, 1, Byte) && !IsCanonAt(CELL_D, ROOT, TOP + 1, Byte);
    assert Lookup(s.mem, HIGH, 1, Byte) == Missing;
    hide Lookup;
    assert Allocate(s.names) == (Names(2, []), 1);
    var key := CellKey(HIGH, 1, Byte);
    var s1 := s.(names := Names(2, []), loadVars := s.loadVars + LoadBound(Byte, OldMem(Byte, 1)));
    assert !Conflicts(SPAN_D, ROOT, TOP + 1, TOP + 2, key);
    assert FindConflict(s1.spans, ROOT, TOP + 1, TOP + 2, key).None?;
    hide FindConflict;
    assert NoteAccess(s1, HIGH, 1, 1, key) == s1.(spans := [SPAN_D, SPAN_B]);
    hide NoteAccess;
  }

  lemma ByteShape(st: State)
    requires Shape(st.s, [CELL_D], [SPAN_D])
    ensures Shape(SymStep(BYTE, st).s, [CELL_D, CELL_B], [SPAN_D, SPAN_B])
  {
    var s := st.s;
    ByteCell(s);
    hide LoadCell;
    assert ReadReg(s, 1) == (s, HIGH);
    hide Shape;
    assert ReadMem(s, 1, 1, Byte) == LoadCell(s, HIGH, 1, Byte);
    hide ReadMem, WriteReg;
    var (s1, raw) := LoadCell(s, HIGH, 1, Byte);
    WriteShape(s1, [CELL_D, CELL_B], [SPAN_D, SPAN_B], 4, StoredReg(Byte, raw));
  }

  lemma PathUnfolds(st: State)
    ensures SymRun(HIGH_PATH, st) == SymStep(BYTE, SymStep(DWORD, SymStep(ADD, SymStep(SET, st))))
  {
    hide SymStep;
    var st3 := SymStep(DWORD, SymStep(ADD, SymStep(SET, st)));
    assert HIGH_PATH[1..] == [ADD, DWORD, BYTE] && [ADD, DWORD, BYTE][1..] == [DWORD, BYTE];
    assert [DWORD, BYTE][1..] == [BYTE] && [BYTE][1..] == [];
    assert SymRun([BYTE], st3) == SymStep(BYTE, st3);
    assert SymRun([DWORD, BYTE], SymStep(ADD, SymStep(SET, st))) == SymStep(BYTE, st3);
    assert SymRun([ADD, DWORD, BYTE], SymStep(SET, st)) == SymStep(BYTE, st3);
  }

  lemma HighCellsMeet(env: Assignment)
    ensures CellCanon(CELL_D).root == CellCanon(CELL_B).root && !SeparateCells(CELL_D, CELL_B, env)
  {
    HighCanon(0);
    HighCanon(1);
    hide CanonAddr, SeparateCells, Mean;
    assert WrapU(TOP + 1 - TOP) == 1;
    SameRootSeparateIff(CELL_D, CELL_B, env);
  }

  /** The bound on displacements is needed. The path is finished, without errors, and its two cells
      lie on one root and overlap under every assignment. */
  lemma WrappedSpanAccepted(env: Assignment)
    ensures var s := SymRun(HIGH_PATH, Start([], map[])).s;
            Clean(s) && s.mem == [CELL_D, CELL_B] && CellCanon(CELL_D).root == CellCanon(CELL_B).root
            && !SeparateCells(CELL_D, CELL_B, env)
  {
    hide SymStep, SymRun, CellCanon, SeparateCells;
    HighCellsMeet(env);
    AddShape();
    PathUnfolds(Start([], map[]));
    var st2 := SymStep(ADD, SymStep(SET, Start([], map[])));
    DwordShape(st2);
    ByteShape(SymStep(DWORD, st2));
  }
}
