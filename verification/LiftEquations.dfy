/** An alias equation is recorded whenever a cell serves an access under another rendering. */
module LiftEquations {
  import opened Words
  import opened Alu
  import opened SymExpr
  import opened SymModel
  import opened Branch
  import opened LiftSound
  import opened Lift
  import opened LiftRecords

  /** The equation for an access served by this cell. */
  function CellEquation(t: Touch, c: MemCell): AliasEq {
    AliasEq(AddrTerm(t.base, t.off, 0), TermOf(c))
  }

  /** The equation for slot `k` of an access, served by this cell. */
  function SlotEquation(t: Touch, c: MemCell, k: nat): AliasEq {
    AliasEq(TermOf(c), AddrTerm(t.base, t.off, k))
  }

  // ----- one cell -----

  lemma UseCellRecords(s: Sym, mem: seq<MemCell>, t: Touch)
    requires Lookup(mem, t.base, t.off, t.width).Hit? && |s.mem| == |mem|
    requires SameKey(s.mem[Lookup(mem, t.base, t.off, t.width).index], mem[Lookup(mem, t.base, t.off, t.width).index])
    ensures var f := Lookup(mem, t.base, t.off, t.width);
            TermOf(mem[f.index]) != AddrTerm(t.base, t.off, 0) ==>
              UseCell(s, t.base, t.off, t.width, f.index, f.aliased, t.writable).alias == Some(CellEquation(t, mem[f.index]))
  {
    hide Lookup;
    if !Lookup(mem, t.base, t.off, t.width).aliased {
      ExactHit(mem, t.base, t.off, t.width);
    }
  }

  lemma LoadCellRecords(s: Sym, t: Touch)
    requires Lookup(s.mem, t.base, t.off, t.width).Hit? && !t.writable
    ensures var c := s.mem[Lookup(s.mem, t.base, t.off, t.width).index];
            TermOf(c) != AddrTerm(t.base, t.off, 0) ==>
              LoadCell(s, t.base, t.off, t.width).0.alias == Some(CellEquation(t, c))
  {
    hide Lookup, UseCell;
    UseCellRecords(s, s.mem, t);
  }

  lemma StoreCellRecords(s: Sym, t: Touch, e: Expr)
    requires Lookup(s.mem, t.base, t.off, t.width).Hit? && t.writable
    ensures var c := s.mem[Lookup(s.mem, t.base, t.off, t.width).index];
            TermOf(c) != AddrTerm(t.base, t.off, 0) ==>
              StoreCell(s, t.base, t.off, t.width, e).alias == Some(CellEquation(t, c))
  {
    hide Lookup, UseCell, ReadMemAt;
    var i := Lookup(s.mem, t.base, t.off, t.width).index;
    UseCellRecords(SetValue(s, i, e), s.mem, t);
  }

  lemma ReadRecords(s: Sym, t: Touch)
    requires !t.writable && Resolved(s, t).Some?
    ensures var c := s.mem[Resolved(s, t).value];
            TermOf(c) != AddrTerm(t.base, t.off, 0) ==>
              ReadMemAt(s, t.base, t.off, t.width).0.alias == Some(CellEquation(t, c))
  {
    hide Lookup, LoadCell, ReadMemAt, ByBytes;
    var s1 := ColdRead(s, t);
    LoadCellRecords(s1, t);
  }

  lemma WriteRecords(s: Sym, t: Touch, e: Expr)
    requires t.writable && Resolved(s, t).Some? && Clean(WriteMemAt(s, t.base, t.off, t.width, e))
    ensures var c := s.mem[Resolved(s, t).value];
            TermOf(c) != AddrTerm(t.base, t.off, 0) ==>
              WriteMemAt(s, t.base, t.off, t.width, e).alias == Some(CellEquation(t, c))
  {
    hide Lookup, StoreCell, StoreHot, HotCovers, CanonAddr, AnyClash, HotIntersects, ClashHull;
    var a := CanonAddr(t.base, t.off);
    PlansKeep(s, a.root, a.disp, t.width);
    StoreCellRecords(if t.width.Byte? then s else RequestDemotion(s, a.root, a.disp, t.width), t, e);
  }

  // ----- slots -----

  lemma FindByteStays(mem: seq<MemCell>, mem': seq<MemCell>, root: Root, disp: int)
    requires FindByte(mem, root, disp).Some? && |mem| <= |mem'|
    requires forall i :: 0 <= i < |mem| ==> SameKey(mem[i], mem'[i])
    ensures FindByte(mem', root, disp) == FindByte(mem, root, disp)
  {
    var f, g := FindByte(mem, root, disp), FindByte(mem', root, disp);
    hide FindByte;
    forall i | 0 <= i < |mem|
      ensures IsByteAt(mem[i], root, disp) <==> IsByteAt(mem'[i], root, disp)
    {
      assert SameKey(mem[i], mem'[i]);
    }
    hide IsByteAt;
    assert IsByteAt(mem'[f.value], root, disp);
    assert g.Some? && g.value <= f.value;
    assert IsByteAt(mem[g.value], root, disp);
  }

  ghost predicate KeepsSlots(s: Sym, s': Sym) {
    s.slotAliases <= s'.slotAliases && |s.mem| <= |s'.mem| && forall i :: 0 <= i < |s.mem| ==> SameKey(s.mem[i], s'.mem[i])
  }

  lemma HotSlotKeeps(s: Sym, base: Expr, off: Off, k: nat)
    requires k < 8
    ensures KeepsSlots(s, HotSlot(s, base, off, k).0)
    ensures var a := CanonAddr(base, off);
            var f := FindByte(s.mem, a.root, a.disp + k);
            f.Some? && TermOf(s.mem[f.value]) != AddrTerm(base, off, k) ==>
              AliasEq(TermOf(s.mem[f.value]), AddrTerm(base, off, k)) in HotSlot(s, base, off, k).0.slotAliases
  {
    hide CanonAddr, NoteAccess, FindByte, Allocate;
    var (names, idx) := Allocate(s.names);
    var n := OldMem(Byte, idx);
    var s1 := s.(names := names, loadVars := s.loadVars + [(n, 8)]);
    NoteAccessKeeps(AddCell(s1, MemCell(base, off, Byte, InitMem(n), k)), base, off + k, 1, HotKey(base, off, k));
  }

  /** Slot `j` is served by the cell under another rendering. */
  ghost predicate ForeignSlot(s: Sym, t: Touch, j: nat, c: MemCell) {
    var a := CanonAddr(t.base, t.off);
    var f := FindByte(s.mem, a.root, a.disp + j);
    f.Some? && TermOf(s.mem[f.value]) == TermOf(c) && TermOf(c) != AddrTerm(t.base, t.off, j)
  }

  lemma ForeignStays(s: Sym, s': Sym, t: Touch, j: nat, c: MemCell)
    requires ForeignSlot(s, t, j, c) && KeepsSlots(s, s')
    ensures ForeignSlot(s', t, j, c)
  {
    hide CanonAddr, FindByte;
    var a := CanonAddr(t.base, t.off);
    FindByteStays(s.mem, s'.mem, a.root, a.disp + j);
    assert SameKey(s.mem[FindByte(s.mem, a.root, a.disp + j).value], s'.mem[FindByte(s.mem, a.root, a.disp + j).value]);
  }

  lemma {:induction false} HotLoadSlotsRecord(s: Sym, t: Touch, k: nat, j: nat, c: MemCell)
    requires k <= j < 8 && ForeignSlot(s, t, j, c)
    ensures SlotEquation(t, c, j) in HotLoadSlots(s, t.base, t.off, k).0.slotAliases
    decreases 8 - k
  {
    hide HotSlot, FindByte, CanonAddr;
    var s1 := HotSlot(s, t.base, t.off, k).0;
    HotSlotKeeps(s, t.base, t.off, k);
    if k < j {
      ForeignStays(s, s1, t, j, c);
      HotLoadSlotsRecord(s1, t, k + 1, j, c);
    } else {
      LoadSlotsGrow(s1, t, k + 1);
    }
  }

  lemma {:induction false} LoadSlotsGrow(s: Sym, t: Touch, k: nat)
    requires k <= 8
    ensures s.slotAliases <= HotLoadSlots(s, t.base, t.off, k).0.slotAliases
    decreases 8 - k
  {
    hide HotSlot;
    if k < 8 {
      HotSlotKeeps(s, t.base, t.off, k);
      LoadSlotsGrow(HotSlot(s, t.base, t.off, k).0, t, k + 1);
    }
  }

  lemma {:induction false} HotStoreSlotsRecord(s: Sym, t: Touch, imm: i64, k: nat, j: nat, c: MemCell)
    requires k <= j < 4 && ForeignSlot(s, t, j, c)
    ensures SlotEquation(t, c, j) in HotStoreSlots(s, t.base, t.off, imm, k).slotAliases
    decreases 4 - k
  {
    hide HotSlot, FindByte, CanonAddr, ByteOf, WrapU;
    var (s1, i) := HotSlot(s, t.base, t.off, k);
    var s2 := SetValue(s1, i, Const(ByteOf(WrapU(imm), k)));
    HotSlotKeeps(s, t.base, t.off, k);
    if k < j {
      ForeignStays(s, s1, t, j, c);
      assert KeepsSlots(s1, s2);
      ForeignStays(s1, s2, t, j, c);
      HotStoreSlotsRecord(s2, t, imm, k + 1, j, c);
    } else {
      StoreSlotsGrow(s2, t, imm, k + 1);
    }
  }

  lemma {:induction false} StoreSlotsGrow(s: Sym, t: Touch, imm: i64, k: nat)
    requires k <= 4
    ensures s.slotAliases <= HotStoreSlots(s, t.base, t.off, imm, k).slotAliases
    decreases 4 - k
  {
    hide HotSlot, ByteOf, WrapU;
    if k < 4 {
      var (s1, i) := HotSlot(s, t.base, t.off, k);
      HotSlotKeeps(s, t.base, t.off, k);
      StoreSlotsGrow(SetValue(s1, i, Const(ByteOf(WrapU(imm), k))), t, imm, k + 1);
    }
  }

  lemma HotReadRecords(s: Sym, t: Touch, j: nat, c: MemCell)
    requires !t.writable && ByBytes(s, t) && j < 8 && ForeignSlot(s, t, j, c)
    requires ReadMemAt(s, t.base, t.off, t.width).0.errors == []
    ensures SlotEquation(t, c, j) in ReadMemAt(s, t.base, t.off, t.width).0.slotAliases
  {
    hide HotLoadSlots, LoadCell, HotCovers, CanonAddr, PlanSplit, RequestDemotion, FindByte;
    var a := CanonAddr(t.base, t.off);
    PlansKeep(s, a.root, a.disp, t.width);
    var s1 := if t.width.Dword? then PlanSplit(s, a.root, a.disp) else s;
    assert ReadMemAt(s, t.base, t.off, t.width) == ReadHotWide(s1, t.base, t.off, t.width);
    HotLoadSlotsRecord(s1, t, 0, j, c);
  }

  lemma HotWriteRecords(s: Sym, t: Touch, e: Expr, j: nat, c: MemCell)
    requires t.writable && ByBytes(s, t) && j < 4 && ForeignSlot(s, t, j, c)
    requires WriteMemAt(s, t.base, t.off, t.width, e).errors == []
    ensures SlotEquation(t, c, j) in WriteMemAt(s, t.base, t.off, t.width, e).slotAliases
  {
    hide HotStoreSlots, StoreCell, StoreCold, HotCovers, CanonAddr, FindByte;
    assert WriteMemAt(s, t.base, t.off, t.width, e) == StoreHot(s, t.base, t.off, t.width, e);
    if e.StImm? {
      HotStoreSlotsRecord(s, t, e.imm, 0, j, c);
    }
  }

  // ----- one instruction -----

  /** Everything an instruction's access owes: the equation of the cell it resolved to, or of each
      slot, when the renderings differ. */
  ghost predicate EquationsOwed(s: Sym, t: Touch, s': Sym) {
    (Resolved(s, t).Some? && TermOf(s.mem[Resolved(s, t).value]) != AddrTerm(t.base, t.off, 0) ==>
       s'.alias == Some(CellEquation(t, s.mem[Resolved(s, t).value])))
    && (ByBytes(s, t) ==>
          forall j: nat, c :: j < Len(t.width) && ForeignSlot(s, t, j, c) ==> SlotEquation(t, c, j) in s'.slotAliases)
  }

  lemma ReadOwes(s: Sym, t: Touch)
    requires !t.writable && ReadMemAt(s, t.base, t.off, t.width).0.errors == []
    ensures EquationsOwed(s, t, ReadMemAt(s, t.base, t.off, t.width).0)
  {
    hide ReadMemAt, Resolved, ByBytes, ForeignSlot, TermOf;
    if Resolved(s, t).Some? {
      ReadRecords(s, t);
    }
    forall j: nat, c | ByBytes(s, t) && j < Len(t.width) && ForeignSlot(s, t, j, c)
      ensures SlotEquation(t, c, j) in ReadMemAt(s, t.base, t.off, t.width).0.slotAliases
    {
      HotReadRecords(s, t, j, c);
    }
  }

  lemma WriteOwes(s: Sym, t: Touch, e: Expr)
    requires t.writable && Clean(WriteMemAt(s, t.base, t.off, t.width, e))
    ensures EquationsOwed(s, t, WriteMemAt(s, t.base, t.off, t.width, e))
  {
    hide WriteMemAt, Resolved, ByBytes, ForeignSlot, TermOf;
    if Resolved(s, t).Some? {
      WriteRecords(s, t, e);
    }
    forall j: nat, c | ByBytes(s, t) && j < Len(t.width) && ForeignSlot(s, t, j, c)
      ensures SlotEquation(t, c, j) in WriteMemAt(s, t.base, t.off, t.width, e).slotAliases
    {
      CleanWord(s, t, e);
      HotWriteRecords(s, t, e, j, c);
    }
  }

  /** A clean store served by bytes is a word store. */
  lemma CleanWord(s: Sym, t: Touch, e: Expr)
    requires ByBytes(s, t) && Clean(WriteMemAt(s, t.base, t.off, t.width, e))
    ensures t.width.Word?
  {
    hide HotStoreSlots, StoreCell, StoreCold, HotCovers, CanonAddr;
    assert WriteMemAt(s, t.base, t.off, t.width, e) == StoreHot(s, t.base, t.off, t.width, e);
  }

  lemma OwedElsewhere(s: Sym, s0: Sym, t: Touch, s': Sym, s'': Sym)
    requires EquationsOwed(s, t, s') && s0.mem == s.mem && s0.hot == s.hot
    requires s''.alias == s'.alias && s''.slotAliases == s'.slotAliases
    ensures EquationsOwed(s0, t, s'')
  {
    hide Lookup, HotCovers, CanonAddr, FindByte, TermOf;
    forall j: nat, c | ByBytes(s0, t) && j < Len(t.width) && ForeignSlot(s0, t, j, c)
      ensures SlotEquation(t, c, j) in s''.slotAliases
    {
      assert ForeignSlot(s, t, j, c);
    }
  }

  /** Whenever a cell serves a finished access under another rendering, the equation between the two
      renderings is recorded: for the cell an access resolves to, and for every slot of an access
      served by bytes. */
  lemma EquationsRecorded(insn: Insn, st: State)
    requires Touched(insn, st.s).Some? && Clean(SymStep(insn, st).s)
    ensures EquationsOwed(st.s, Touched(insn, st.s).value, SymStep(insn, st).s)
  {
    hide ReadReg, ReadMemAt, WriteMemAt, ReloadHyps, EquationsOwed, StoredReg, StoredImm;
    if insn.Ldx? {
      var Ldx(w, dst, src, off) := insn;
      var (s1, base) := ReadReg(st.s, src);
      var t := Touch(base, off, w, false);
      var (s2, raw) := ReadMemAt(s1, base, off, w);
      RegKeepsClause(st.s, src, t);
      RegKeepsAlias(s2, dst, StoredReg(w, raw));
      ReadOwes(s1, t);
      OwedElsewhere(s1, st.s, t, s2, SymStep(insn, st).s);
    } else {
      var s1 := if insn.Stx? then ReadReg(st.s, insn.src).0 else st.s;
      var e := if insn.Stx? then StoredReg(insn.w, ReadReg(st.s, insn.src).1) else StoredImm(insn.w, insn.imm);
      var (s2, base) := ReadReg(s1, insn.dst);
      var t := Touch(base, insn.off, insn.w, true);
      RegKeepsClause(s1, insn.dst, t);
      if insn.Stx? {
        RegKeepsClause(st.s, insn.src, t);
      }
      var s' := WriteMemAt(s2, base, insn.off, insn.w, e);
      assert SymStep(insn, st).s == s';
      WriteOwes(s2, t, e);
      OwedElsewhere(s2, st.s, t, s', s');
    }
  }

  lemma RegKeepsAlias(s: Sym, r: Reg, e: Expr)
    ensures var s' := WriteReg(s, r, e); s'.alias == s.alias && s'.slotAliases == s.slotAliases && s'.errors == s.errors
  {
  }
}
