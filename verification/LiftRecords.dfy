/** What the walker takes from the state besides the triple: the alias equations, and one region
    clause per memory instruction. */
module LiftRecords {
  import opened Words
  import opened Alu
  import opened SymExpr
  import opened SymModel
  import opened Branch
  import opened LiftSound
  import opened Lift

  // ----- alias equations -----

  function TermAddr(t: AddrTerm, env: Assignment): u64 {
    WrapU(Mean(t.base, env) + t.off + t.delta)
  }

  /** The two sides have one canonical address. */
  predicate SameTerm(a: AliasEq) {
    var l, r := CanonAddr(a.lhs.base, a.lhs.off), CanonAddr(a.rhs.base, a.rhs.off);
    l.root == r.root && l.disp + a.lhs.delta == r.disp + a.rhs.delta
  }

  /** Then the equation is true under every assignment. */
  lemma SameTermTrue(a: AliasEq, env: Assignment)
    requires SameTerm(a)
    ensures TermAddr(a.lhs, env) == TermAddr(a.rhs, env)
  {
    hide WrapU, Mean, CanonAddr;
    var l, r := CanonAddr(a.lhs.base, a.lhs.off), CanonAddr(a.rhs.base, a.rhs.off);
    var x: int, y: int := Mean(a.lhs.base, env) + a.lhs.off, Mean(a.rhs.base, env) + a.rhs.off;
    CanonCongruence(a.lhs.base, a.lhs.off, a.rhs.base, a.rhs.off, env);
    CongAdd(x - y, l.disp - r.disp, y + a.lhs.delta, y + a.lhs.delta);
    assert l.disp - r.disp + (y + a.lhs.delta) == y + a.rhs.delta;
  }

  ghost predicate SlotsTrue(eqs: seq<AliasEq>) {
    forall i :: 0 <= i < |eqs| ==> SameTerm(eqs[i])
  }

  ghost predicate AliasInv(s: Sym) {
    (s.alias.Some? ==> SameTerm(s.alias.value)) && SlotsTrue(s.slotAliases)
  }

  lemma AliasSame(s: Sym, s': Sym)
    requires AliasInv(s) && s'.alias == s.alias && s'.slotAliases == s.slotAliases
    ensures AliasInv(s')
  {
    hide SameTerm;
  }

  lemma HotSlotAlias(s: Sym, base: Expr, off: Off, k: nat)
    requires AliasInv(s) && k < 8
    ensures AliasInv(HotSlot(s, base, off, k).0)
  {
    hide CanonAddr, NoteAccess, FindByte, Allocate;
    var c := CanonAddr(base, off);
    var f := FindByte(s.mem, c.root, c.disp + k);
    var s' := HotSlot(s, base, off, k).0;
    if f.Some? {
      assert IsByteAt(s.mem[f.value], c.root, c.disp + k);
      assert SameTerm(AliasEq(TermOf(s.mem[f.value]), AddrTerm(base, off, k)));
    } else {
      var (names, idx) := Allocate(s.names);
      var n := OldMem(Byte, idx);
      var s1 := s.(names := names, loadVars := s.loadVars + [(n, 8)]);
      NoteAccessKeeps(AddCell(s1, MemCell(base, off, Byte, InitMem(n), k)), base, off + k, 1, HotKey(base, off, k));
      AliasSame(s, s');
    }
  }

  lemma {:induction false} HotLoadSlotsAlias(s: Sym, base: Expr, off: Off, k: nat)
    requires AliasInv(s) && k <= 8
    ensures AliasInv(HotLoadSlots(s, base, off, k).0)
    decreases 8 - k
  {
    hide HotSlot, AliasInv;
    if k < 8 {
      HotSlotAlias(s, base, off, k);
      HotLoadSlotsAlias(HotSlot(s, base, off, k).0, base, off, k + 1);
    }
  }

  lemma {:induction false} HotStoreSlotsAlias(s: Sym, base: Expr, off: Off, imm: i64, k: nat)
    requires AliasInv(s) && k <= 4
    ensures AliasInv(HotStoreSlots(s, base, off, imm, k))
    decreases 4 - k
  {
    hide HotSlot, AliasInv, ByteOf, WrapU;
    if k < 4 {
      var (s1, i) := HotSlot(s, base, off, k);
      var s2 := SetValue(s1, i, Const(ByteOf(WrapU(imm), k)));
      HotSlotAlias(s, base, off, k);
      AliasSame(s1, s2);
      HotStoreSlotsAlias(s2, base, off, imm, k + 1);
    }
  }

  /** Serving an access from a found cell records a true equation. */
  lemma UseCellAlias(s: Sym, mem: seq<MemCell>, base: Expr, off: Off, w: Width, writable: bool)
    requires AliasInv(s) && Lookup(mem, base, off, w).Hit? && |s.mem| == |mem|
    requires SameKey(s.mem[Lookup(mem, base, off, w).index], mem[Lookup(mem, base, off, w).index])
    ensures var f := Lookup(mem, base, off, w); AliasInv(UseCell(s, base, off, w, f.index, f.aliased, writable))
  {
    hide CanonAddr, FindExact, FindCanon;
    var f := Lookup(mem, base, off, w);
    var c := CanonAddr(base, off);
    if f.aliased {
      assert IsCanonAt(mem[f.index], c.root, c.disp, w);
      assert SameTerm(AliasEq(AddrTerm(base, off, 0), TermOf(s.mem[f.index])));
    }
  }

  lemma LoadCellAlias(s: Sym, base: Expr, off: Off, w: Width)
    requires AliasInv(s)
    ensures AliasInv(LoadCell(s, base, off, w).0)
  {
    hide Lookup, NoteAccess, AliasInv, UseCell, Allocate;
    if Lookup(s.mem, base, off, w).Hit? {
      UseCellAlias(s, s.mem, base, off, w, false);
    } else {
      var (names, idx) := Allocate(s.names);
      var n := OldMem(w, idx);
      var s1 := s.(names := names, loadVars := s.loadVars + LoadBound(w, n));
      NoteAccessKeeps(s1, base, off, Len(w), CellKey(base, off, w));
      AliasSame(s, LoadCell(s, base, off, w).0);
    }
  }

  lemma ReadHotWideAlias(s: Sym, base: Expr, off: Off, w: Width)
    requires AliasInv(s)
    ensures AliasInv(ReadHotWide(s, base, off, w).0)
  {
    hide HotLoadSlots, AliasInv;
    HotLoadSlotsAlias(s, base, off, 0);
    AliasSame(if w.Dword? then HotLoadSlots(s, base, off, 0).0 else s, ReadHotWide(s, base, off, w).0);
  }

  lemma ReadMemAtAlias(s: Sym, base: Expr, off: Off, w: Width)
    requires AliasInv(s)
    ensures AliasInv(ReadMemAt(s, base, off, w).0)
  {
    hide LoadCell, ReadHotWide, RequestDemotion, PlanSplit, HotCovers, CanonAddr, AliasInv;
    LoadCellAlias(s, base, off, w);
    var a := CanonAddr(base, off);
    PlansKeep(s, a.root, a.disp, w);
    var s1 := if w.Dword? then PlanSplit(s, a.root, a.disp) else s;
    AliasSame(s, s1);
    PlansKeep(s1, a.root, a.disp, w);
    AliasSame(s1, RequestDemotion(s1, a.root, a.disp, w));
    ReadHotWideAlias(s1, base, off, w);
    LoadCellAlias(RequestDemotion(s1, a.root, a.disp, w), base, off, w);
  }

  lemma StoreCellAlias(s: Sym, base: Expr, off: Off, w: Width, e: Expr)
    requires AliasInv(s)
    ensures AliasInv(StoreCell(s, base, off, w, e))
  {
    hide Lookup, ReadMemAt, AliasInv, UseCell;
    ReadMemAtAlias(s, base, off, w);
    var s1 := Materialized(s, base, off, w);
    AliasSame(if Lookup(s.mem, base, off, w).Missing? then ReadMemAt(s, base, off, w).0 else s, s1);
    StoreIntoAlias(s1, base, off, w, e);
  }

  lemma StoreIntoAlias(s: Sym, base: Expr, off: Off, w: Width, e: Expr)
    requires AliasInv(s)
    ensures AliasInv(StoreInto(s, base, off, w, e))
  {
    hide Lookup, AliasInv, UseCell;
    var f := Lookup(s.mem, base, off, w);
    if f.Hit? {
      AliasSame(s, SetValue(s, f.index, e));
      UseCellAlias(SetValue(s, f.index, e), s.mem, base, off, w, true);
    }
  }

  lemma WriteMemAtAlias(s: Sym, base: Expr, off: Off, w: Width, e: Expr)
    requires AliasInv(s)
    ensures AliasInv(WriteMemAt(s, base, off, w, e))
  {
    hide StoreCell, StoreHot, StoreCold, HotCovers, CanonAddr, AliasInv;
    StoreCellAlias(s, base, off, w, e);
    StoreHotAlias(s, base, off, w, e);
    StoreColdAlias(s, CanonAddr(base, off), base, off, w, e);
  }

  lemma StoreHotAlias(s: Sym, base: Expr, off: Off, w: Width, e: Expr)
    requires AliasInv(s)
    ensures AliasInv(StoreHot(s, base, off, w, e))
  {
    hide HotStoreSlots, AliasInv;
    var s' := StoreHot(s, base, off, w, e);
    if w.Word? && e.StImm? && e.width.Word? {
      HotStoreSlotsAlias(s, base, off, e.imm, 0);
      AliasSame(HotStoreSlots(s, base, off, e.imm, 0), s');
    } else {
      AliasSame(s, s');
    }
  }

  lemma StoreColdAlias(s: Sym, a: Canon, base: Expr, off: Off, w: Width, e: Expr)
    requires AliasInv(s)
    ensures AliasInv(StoreCold(s, a, base, off, w, e))
  {
    hide StoreCell, RequestDemotion, PlanSplit, HotIntersects, AliasInv;
    PlansKeep(s, a.root, a.disp, w);
    var s1 := RequestDemotion(s, a.root, a.disp, w);
    AliasSame(s, s1);
    StoreCellAlias(s1, base, off, w, e);
  }

  // ----- region clauses -----

  /** A memory access: where it goes, symbolically, how wide it is and whether it writes. */
  datatype Touch = Touch(base: Expr, off: Off, width: Width, writable: bool)

  /** The access an instruction makes in a state, if it makes one. */
  function Touched(insn: Insn, s: Sym): Option<Touch> {
    match insn
    case Ldx(w, _, src, off) => Some(Touch(ReadReg(s, src).1, off, w, false))
    case Stx(w, dst, off, src) => Some(Touch(ReadReg(ReadReg(s, src).0, dst).1, off, w, true))
    case StoreImm(w, dst, off, _) => Some(Touch(ReadReg(s, dst).1, off, w, true))
    case _ => None
  }

  predicate ByBytes(s: Sym, t: Touch) {
    var a := CanonAddr(t.base, t.off);
    !t.width.Byte? && HotCovers(s.hot, a.root, a.disp, a.disp + Len(t.width))
  }

  /** The existing cell an access resolves to. A wide access into a byte-granular region is
      served slot by slot and resolves to no single cell. */
  function Resolved(s: Sym, t: Touch): (r: Option<nat>)
    ensures r.Some? ==> r.value < |s.mem|
  {
    if ByBytes(s, t) then None
    else
      match Lookup(s.mem, t.base, t.off, t.width)
      case Hit(i, _) => Some(i)
      case Missing => None
  }

  /** How far into its wide access the slot lies that serves this one. */
  function SlotDelta(s: Sym, t: Touch): nat {
    match Resolved(s, t)
    case Some(i) => s.mem[i].delta
    case None => 0
  }

  /** The clause of an access: under the rendering of the cell it resolves to, without the slot. */
  function ClauseOf(s: Sym, t: Touch): Clause {
    match Resolved(s, t)
    case Some(i) => Access(s.mem[i].base, s.mem[i].off, t.width, t.writable)
    case None => Access(t.base, t.off, t.width, t.writable)
  }

  /** Slots are served without a clause and without a request. */
  ghost predicate Quietly(s: Sym, s': Sym) {
    s'.walk == s.walk && s'.newHot == s.newHot && s'.hot == s.hot
  }

  lemma {:induction false} HotSlotsWalk(s: Sym, base: Expr, off: Off, imm: i64, k: nat)
    requires k <= 8
    ensures Quietly(s, HotLoadSlots(s, base, off, k).0)
    ensures k <= 4 ==> Quietly(s, HotStoreSlots(s, base, off, imm, k))
    decreases 8 - k
  {
    hide HotSlot, ByteOf, WrapU;
    if k < 8 {
      var (s1, i) := HotSlot(s, base, off, k);
      HotSlotWalk(s, base, off, k);
      HotSlotsWalk(s1, base, off, imm, k + 1);
      if k < 4 {
        HotSlotsWalk(SetValue(s1, i, Const(ByteOf(WrapU(imm), k))), base, off, imm, k + 1);
      }
    }
  }

  lemma HotSlotWalk(s: Sym, base: Expr, off: Off, k: nat)
    requires k < 8
    ensures Quietly(s, HotSlot(s, base, off, k).0)
  {
    hide CanonAddr, NoteAccess, FindByte;
    var (names, idx) := Allocate(s.names);
    var n := OldMem(Byte, idx);
    var s1 := s.(names := names, loadVars := s.loadVars + [(n, 8)]);
    NoteAccessKeeps(AddCell(s1, MemCell(base, off, Byte, InitMem(n), k)), base, off + k, 1, HotKey(base, off, k));
  }

  /** An exact hit is rendered as the access itself. */
  lemma ExactHit(mem: seq<MemCell>, base: Expr, off: Off, w: Width)
    requires Lookup(mem, base, off, w).Hit? && !Lookup(mem, base, off, w).aliased
    ensures var c := mem[Lookup(mem, base, off, w).index]; c.base == base && c.off == off && c.delta == 0
  {
    hide CanonAddr, FindCanon;
  }

  /** The clause a lookup leads to. */
  function FoundClause(mem: seq<MemCell>, base: Expr, off: Off, w: Width, writable: bool): Clause {
    match Lookup(mem, base, off, w)
    case Hit(i, _) => Access(mem[i].base, mem[i].off, w, writable)
    case Missing => Access(base, off, w, writable)
  }

  lemma LoadCellWalk(s: Sym, base: Expr, off: Off, w: Width)
    ensures var s' := LoadCell(s, base, off, w).0;
            s'.walk == s.walk + [FoundClause(s.mem, base, off, w, false)] && s'.newHot == s.newHot && s'.hot == s.hot
  {
    hide Lookup, NoteAccess;
    var (names, idx) := Allocate(s.names);
    var n := OldMem(w, idx);
    var s1 := s.(names := names, loadVars := s.loadVars + LoadBound(w, n));
    NoteAccessKeeps(s1, base, off, Len(w), CellKey(base, off, w));
    var f := Lookup(s.mem, base, off, w);
    if f.Hit? && !f.aliased {
      ExactHit(s.mem, base, off, w);
    }
  }

  /** What a load records: `ClauseOf` the access, if it is finished. */
  lemma ReadMemAtWalk(s: Sym, t: Touch)
    requires !t.writable
    requires ReadMemAt(s, t.base, t.off, t.width).0.errors == [] || !ByBytes(s, t)
    ensures ReadMemAt(s, t.base, t.off, t.width).0.walk == s.walk + [ClauseOf(s, t)]
  {
    hide LoadCell, ReadHotWide, RequestDemotion, PlanSplit, HotCovers, CanonAddr, Lookup;
    var Touch(base, off, w, _) := t;
    var s' := ReadMemAt(s, base, off, w).0;
    if w.Byte? {
      assert s' == LoadCell(s, base, off, w).0;
      LoadCellWalk(s, base, off, w);
    } else {
      var a := CanonAddr(base, off);
      PlansKeep(s, a.root, a.disp, w);
      var s1 := if w.Dword? then PlanSplit(s, a.root, a.disp) else s;
      var s2 := RequestDemotion(s1, a.root, a.disp, w);
      PlansKeep(s1, a.root, a.disp, w);
      if HotCovers(s1.hot, a.root, a.disp, a.disp + Len(w)) {
        assert s' == ReadHotWide(s1, base, off, w).0;
        ReadHotWideWalk(s1, base, off, w);
      } else {
        assert s' == LoadCell(s2, base, off, w).0;
        LoadCellWalk(s2, base, off, w);
      }
    }
  }

  lemma ReadHotWideWalk(s: Sym, base: Expr, off: Off, w: Width)
    requires ReadHotWide(s, base, off, w).0.errors == []
    ensures ReadHotWide(s, base, off, w).0.walk == s.walk + [Access(base, off, w, false)]
  {
    hide HotLoadSlots;
    HotSlotsWalk(s, base, off, 0, 0);
  }

  /** Materializing keeps the clauses, and leads the store to the clause of its own access. */
  lemma MaterializedWalk(s: Sym, t: Touch)
    requires !ByBytes(s, t)
    ensures var s1 := Materialized(s, t.base, t.off, t.width);
            s1.walk == s.walk && Lookup(s1.mem, t.base, t.off, t.width).Hit?
            && FoundClause(s1.mem, t.base, t.off, t.width, true) == ClauseOf(s, t.(writable := true))
  {
    hide Lookup, ReadMemAt, HotCovers, CanonAddr;
    ReadMemAtWalk(s, t.(writable := false));
    MaterializedFound(s, t.base, t.off, t.width);
    if Lookup(s.mem, t.base, t.off, t.width).Missing? {
      MaterializedExact(s, t);
      ExactHit(Materialized(s, t.base, t.off, t.width).mem, t.base, t.off, t.width);
    }
  }

  /** An access that is not served by bytes is a plain load, after its requests. */
  lemma ColdRead(s: Sym, t: Touch) returns (s': Sym)
    requires !ByBytes(s, t)
    ensures s' == s.(newHot := s'.newHot, newSplits := s'.newSplits)
    ensures ReadMemAt(s, t.base, t.off, t.width) == LoadCell(s', t.base, t.off, t.width)
  {
    hide HotCovers, CanonAddr, RequestDemotion, PlanSplit, LoadCell, ReadHotWide;
    s' := s;
    if !t.width.Byte? {
      var a := CanonAddr(t.base, t.off);
      PlansKeep(s, a.root, a.disp, t.width);
      var s1 := if t.width.Dword? then PlanSplit(s, a.root, a.disp) else s;
      PlansKeep(s1, a.root, a.disp, t.width);
      s' := RequestDemotion(s1, a.root, a.disp, t.width);
    }
  }

  lemma MaterializedExact(s: Sym, t: Touch)
    requires !ByBytes(s, t) && Lookup(s.mem, t.base, t.off, t.width).Missing?
    ensures var f := Lookup(Materialized(s, t.base, t.off, t.width).mem, t.base, t.off, t.width); f.Hit? && !f.aliased
  {
    hide ReadMemAt, LoadCell, Lookup, ByBytes;
    var s1 := ColdRead(s, t);
    var cell := FreshCellMem(s1, t.base, t.off, t.width);
    AppendedExact(s.mem, cell);
  }

  lemma FreshCellMem(s: Sym, base: Expr, off: Off, w: Width) returns (cell: MemCell)
    requires Lookup(s.mem, base, off, w).Missing?
    ensures LoadCell(s, base, off, w).0.mem == s.mem + [cell]
    ensures cell.base == base && cell.off == off && cell.width == w && cell.delta == 0
  {
    hide NoteAccess, Lookup;
    var (names, idx) := Allocate(s.names);
    var n := OldMem(w, idx);
    NoteAccessKeeps(s.(names := names, loadVars := s.loadVars + LoadBound(w, n)), base, off, Len(w), CellKey(base, off, w));
    cell := MemCell(base, off, w, InitMem(n), 0);
  }

  lemma AppendedExact(mem: seq<MemCell>, c: MemCell)
    requires c.delta == 0
    ensures var f := Lookup(mem + [c], c.base, c.off, c.width); f.Hit? && !f.aliased
  {
    hide CanonAddr, FindCanon;
    assert IsExact((mem + [c])[|mem|], c.base, c.off, c.width);
  }

  lemma StoreCellWalk(s: Sym, t: Touch, e: Expr)
    requires !ByBytes(s, t) && t.writable
    ensures StoreCell(s, t.base, t.off, t.width, e).walk == s.walk + [ClauseOf(s, t)]
  {
    hide Lookup, Materialized, ClauseOf, ByBytes;
    MaterializedWalk(s, t);
    var mem := Materialized(s, t.base, t.off, t.width).mem;
    var f := Lookup(mem, t.base, t.off, t.width);
    if !f.aliased {
      ExactHit(mem, t.base, t.off, t.width);
    }
    assert t.(writable := true) == t;
  }

  lemma WriteMemAtWalk(s: Sym, t: Touch, e: Expr)
    requires t.writable && Clean(WriteMemAt(s, t.base, t.off, t.width, e))
    ensures WriteMemAt(s, t.base, t.off, t.width, e).walk == s.walk + [ClauseOf(s, t)]
  {
    hide StoreCell, StoreHot, StoreCold, HotCovers, CanonAddr, Clean, Lookup;
    var Touch(base, off, w, _) := t;
    var s' := WriteMemAt(s, base, off, w, e);
    var a := CanonAddr(base, off);
    if w.Byte? {
      assert s' == StoreCell(s, base, off, w, e);
      StoreCellWalk(s, t, e);
    } else if HotCovers(s.hot, a.root, a.disp, a.disp + Len(w)) {
      assert s' == StoreHot(s, base, off, w, e);
      StoreHotWalk(s, base, off, w, e);
    } else {
      assert s' == StoreCold(s, a, base, off, w, e);
      StoreColdWalk(s, a, t, e);
    }
  }

  lemma StoreHotWalk(s: Sym, base: Expr, off: Off, w: Width, e: Expr)
    requires Clean(StoreHot(s, base, off, w, e))
    ensures StoreHot(s, base, off, w, e).walk == s.walk + [Access(base, off, w, true)]
  {
    hide HotStoreSlots;
    if e.StImm? {
      HotSlotsWalk(s, base, off, e.imm, 0);
    }
  }

  lemma StoreColdWalk(s: Sym, a: Canon, t: Touch, e: Expr)
    requires a == CanonAddr(t.base, t.off) && !ByBytes(s, t) && t.writable
    requires Clean(StoreCold(s, a, t.base, t.off, t.width, e))
    ensures StoreCold(s, a, t.base, t.off, t.width, e).walk == s.walk + [ClauseOf(s, t)]
  {
    hide StoreCell, HotCovers, CanonAddr, PlanSplit, ClashHull, AnyClash, HotIntersects, Lookup;
    PlansKeep(s, a.root, a.disp, t.width);
    StoreCellWalk(RequestDemotion(s, a.root, a.disp, t.width), t, e);
  }

  // ----- whole paths -----

  /** Nothing is recorded and nothing asked; true alias equations stay true. */
  ghost predicate Silent(s: Sym, s': Sym) {
    s'.walk == s.walk && s'.newHot == s.newHot && s'.hot == s.hot && s'.errors == s.errors
    && (AliasInv(s) ==> AliasInv(s'))
  }

  lemma RegRecords(s: Sym, r: Reg, e: Expr)
    ensures Silent(s, ReadReg(s, r).0) && Silent(s, WriteReg(s, r, e))
    ensures ReadReg(s, r).0.mem == s.mem && ReadReg(s, r).0.spans == s.spans
  {
    hide SameTerm;
  }

  lemma OperandRecords(s: Sym, rhs: Operand)
    ensures Silent(s, ReadOperand(s, rhs).0)
  {
    hide AliasInv, ReadReg;
    if rhs.RegOp? {
      RegRecords(s, rhs.reg, Const(0));
    }
  }

  lemma {:induction false} SavedRecords(s: Sym, i: nat)
    requires i <= 5
    ensures Silent(s, ReadSaved(s, i).0)
    decreases 5 - i
  {
    hide AliasInv, ReadReg;
    if i < 5 {
      RegRecords(s, 6 + i, Const(0));
      SavedRecords(ReadReg(s, 6 + i).0, i + 1);
    }
  }

  lemma {:induction false} RestoreRecords(s: Sym, saved: seq<Expr>, i: nat)
    requires |saved| == 5 && i <= 5
    ensures Silent(s, RestoreSym(s, saved, i))
    decreases 5 - i
  {
    hide AliasInv, WriteReg;
    if i < 5 {
      RegRecords(s, 6 + i, saved[i]);
      RestoreRecords(WriteReg(s, 6 + i, saved[i]), saved, i + 1);
    }
  }

  predicate TouchesMemory(insn: Insn) {
    insn.Ldx? || insn.Stx? || insn.StoreImm?
  }

  lemma QuietRecords(insn: Insn, st: State)
    requires !TouchesMemory(insn)
    ensures Silent(st.s, SymStep(insn, st).s)
  {
    hide AliasInv, ReadReg, WriteReg, ReadOperand, ReadSaved, RestoreSym, AluExpr, TextExpr, JumpHyp;
    match insn
    case Mov(dst, rhs) =>
      var (s1, e) := ReadOperand(st.s, rhs);
      OperandRecords(st.s, rhs);
      RegRecords(s1, dst, e);
    case Alu(size, op, dst, rhs) =>
      var (s1, a) := ReadReg(st.s, dst);
      RegRecords(st.s, dst, a);
      var (s2, b) := ReadOperand(s1, rhs);
      OperandRecords(s1, rhs);
      RegRecords(s2, dst, AluExpr(size, op, a, b, rhs));
    case Negate(size, dst) =>
      var (s1, a) := ReadReg(st.s, dst);
      RegRecords(st.s, dst, a);
      RegRecords(s1, dst, TextExpr(RawAlu(size, Neg), [a], size.Wide?));
    case Endian(dst, bytes, big) =>
      var (s1, a) := ReadReg(st.s, dst);
      RegRecords(st.s, dst, a);
      RegRecords(s1, dst, TextExpr(RawEndian(bytes, big), [a], true));
    case Jump(wide, cond, dst, rhs, taken) =>
      RegRecords(st.s, dst, Const(0));
      OperandRecords(ReadReg(st.s, dst).0, rhs);
    case Ja =>
    case CallLocal =>
      var (s1, saved) := ReadSaved(st.s, 0);
      SavedRecords(st.s, 0);
      RegRecords(s1, 10, Binary(NatAdd, saved[4], Const(0x1000)));
    case Return =>
      var n := |st.frames|;
      if n > 0 && |st.frames[n - 1]| == 5 {
        RestoreRecords(st.s, st.frames[n - 1], 0);
      }
  }

  lemma LoadRecords(insn: Insn, st: State)
    requires insn.Ldx? && AliasInv(st.s)
    ensures AliasInv(SymStep(insn, st).s)
    ensures SymStep(insn, st).s.errors == [] ==>
              SymStep(insn, st).s.walk == st.s.walk + [ClauseOf(st.s, Touched(insn, st.s).value)]
  {
    hide AliasInv, ReadReg, ReadMemAt, ReloadHyps, ClauseOf;
    var Ldx(w, dst, src, off) := insn;
    var (s0, base) := ReadReg(st.s, src);
    RegRecords(st.s, src, base);
    var (s1, raw) := ReadMemAt(s0, base, off, w);
    ReadMemAtAlias(s0, base, off, w);
    RegRecords(s1, dst, StoredReg(w, raw));
    RegsGrow(s1, dst, StoredReg(w, raw));
    hide WriteReg;
    if SymStep(insn, st).s.errors == [] {
      var t := Touch(base, off, w, false);
      ReadMemAtWalk(s0, t);
      RegKeepsClause(st.s, src, t);
    }
  }

  /** Reading a register does not change what an access resolves to. */
  lemma RegKeepsClause(s: Sym, r: Reg, t: Touch)
    ensures ClauseOf(ReadReg(s, r).0, t) == ClauseOf(s, t)
    ensures ReadReg(s, r).0.mem == s.mem && ReadReg(s, r).0.hot == s.hot
  {
    hide Lookup, HotCovers, CanonAddr;
  }

  lemma StoreRecords(insn: Insn, st: State)
    requires (insn.Stx? || insn.StoreImm?) && AliasInv(st.s)
    ensures AliasInv(SymStep(insn, st).s)
    ensures Clean(SymStep(insn, st).s) ==>
              SymStep(insn, st).s.walk == st.s.walk + [ClauseOf(st.s, Touched(insn, st.s).value)]
  {
    hide AliasInv, ReadReg, WriteMemAt, StoredReg, StoredImm, Clean, ClauseOf;
    var s1 := if insn.Stx? then ReadReg(st.s, insn.src).0 else st.s;
    var e := if insn.Stx? then StoredReg(insn.w, ReadReg(st.s, insn.src).1) else StoredImm(insn.w, insn.imm);
    if insn.Stx? {
      RegRecords(st.s, insn.src, Const(0));
    }
    var (s2, base) := ReadReg(s1, insn.dst);
    var t := Touch(base, insn.off, insn.w, true);
    RegRecords(s1, insn.dst, base);
    WriteMemAtAlias(s2, base, insn.off, insn.w, e);
    assert SymStep(insn, st).s == WriteMemAt(s2, base, insn.off, insn.w, e);
    if Clean(SymStep(insn, st).s) {
      WriteMemAtWalk(s2, t, e);
      RegKeepsClause(s1, insn.dst, t);
      if insn.Stx? {
        RegKeepsClause(st.s, insn.src, t);
      }
    }
  }

  function StepClauses(insn: Insn, s: Sym): seq<Clause> {
    match Touched(insn, s)
    case Some(t) => [ClauseOf(s, t)]
    case None => []
  }

  lemma StepRecords(insn: Insn, st: State)
    requires AliasInv(st.s)
    ensures AliasInv(SymStep(insn, st).s)
    ensures Clean(SymStep(insn, st).s) ==> SymStep(insn, st).s.walk == st.s.walk + StepClauses(insn, st.s)
  {
    hide AliasInv, SymStep, ClauseOf, ReadReg;
    if insn.Ldx? {
      LoadRecords(insn, st);
    } else if TouchesMemory(insn) {
      StoreRecords(insn, st);
    } else {
      QuietRecords(insn, st);
    }
  }

  /** The clauses of a path, access by access. */
  function Clauses(prog: seq<Insn>, st: State): seq<Clause> {
    if |prog| == 0 then [] else StepClauses(prog[0], st.s) + Clauses(prog[1..], SymStep(prog[0], st))
  }

  lemma {:induction false} RunRecords(prog: seq<Insn>, st: State)
    requires AliasInv(st.s)
    ensures AliasInv(SymRun(prog, st).s)
    ensures Clean(SymRun(prog, st).s) ==> SymRun(prog, st).s.walk == st.s.walk + Clauses(prog, st)
  {
    hide AliasInv, SymStep, StepClauses, Clean, Grows;
    if |prog| > 0 {
      var st1 := SymStep(prog[0], st);
      StepRecords(prog[0], st);
      RunRecords(prog[1..], st1);
      if Clean(SymRun(prog, st).s) {
        RunGrows(prog[1..], st1);
        CleanMonotone(st1.s, SymRun(prog, st).s);
      }
    }
  }

  /** On every path, each recorded alias equation is true under every assignment. */
  lemma EquationsTrue(prog: seq<Insn>, hot: seq<Region>, splits: map<(Root, int), int>, env: Assignment)
    ensures var s := SymRun(prog, Start(hot, splits)).s;
            (s.alias.Some? ==> TermAddr(s.alias.value.lhs, env) == TermAddr(s.alias.value.rhs, env))
            && forall i :: 0 <= i < |s.slotAliases| ==> TermAddr(s.slotAliases[i].lhs, env) == TermAddr(s.slotAliases[i].rhs, env)
  {
    hide SymRun, SameTerm, TermAddr;
    RunRecords(prog, Start(hot, splits));
    var s := SymRun(prog, Start(hot, splits)).s;
    if s.alias.Some? {
      SameTermTrue(s.alias.value, env);
    }
    forall i | 0 <= i < |s.slotAliases|
      ensures TermAddr(s.slotAliases[i].lhs, env) == TermAddr(s.slotAliases[i].rhs, env)
    {
      SameTermTrue(s.slotAliases[i], env);
    }
  }
}
