/** The lifter's symbolic state, updated in place. Each method is proved to perform exactly the
    operation of the same name in `SymModel`, whose properties are proved there and above. */
module SymStateClass {
  import opened Words
  import opened SymExpr
  import opened SymModel
  import M = SymModel

  lemma LoadSlotsStep(s: Sym, base: Expr, off: Off, k: nat)
    requires k < 8
    ensures var (s1, i) := M.HotSlot(s, base, off, k);
            HotLoadSlots(s, base, off, k)
            == (HotLoadSlots(s1, base, off, k + 1).0, [s1.mem[i].value] + HotLoadSlots(s1, base, off, k + 1).1)
  {
    hide M.HotSlot;
  }

  lemma LoadSlotsDone(s: Sym, base: Expr, off: Off)
    ensures HotLoadSlots(s, base, off, 8) == (s, [])
  {
  }

  class SymState {
    var regs: map<Reg, Expr>
    var pre: seq<Atom>
    var mem: seq<MemCell>
    var names: Names
    var loadVars: seq<(Name, nat)>
    var walk: seq<Clause>
    var spans: seq<Span>
    var errors: seq<OverlapError>
    var alias: Option<AliasEq>
    var slotAliases: seq<AliasEq>
    var hot: seq<Region>
    var newHot: seq<Region>
    var blobs: seq<Blob>
    var splits: map<(Root, int), int>
    var newSplits: seq<(Root, int, int)>

    function Model(): Sym
      reads this
    {
      Sym(regs, pre, mem, names, loadVars, walk, spans, errors, alias, slotAliases, hot, newHot,
          blobs, splits, newSplits)
    }

    lemma HotField()
      ensures hot == Model().hot
    {
    }

    constructor WithRetryPlans(hot: seq<Region>, splits: map<(Root, int), int>)
      ensures Model() == M.WithRetryPlans(hot, splits)
    {
      regs, pre, mem, names, loadVars := map[], [], [], Names(0, []), [];
      walk, spans, errors, alias, slotAliases := [], [], [], None, [];
      this.hot, newHot, blobs, this.splits, newSplits := hot, [], [], splits, [];
    }

    method ReserveFreshName() returns (idx: nat)
      modifies this`names
      ensures (names, idx) == Reserve(old(names))
    {
      idx := names.next;
      names := Names(names.next + 1, names.reserved + [idx]);
    }

    method AllocFreshName() returns (idx: nat)
      modifies this`names
      ensures (names, idx) == Allocate(old(names))
    {
      if |names.reserved| > 0 {
        idx := names.reserved[0];
        names := names.(reserved := names.reserved[1..]);
      } else {
        idx := names.next;
        names := names.(next := names.next + 1);
      }
    }

    method RegisterBlob(b: Blob)
      modifies this`blobs
      ensures blobs == old(blobs) + [b]
    {
      blobs := blobs + [b];
    }

    method TakeRetryPlan() returns (plan: RetryPlan)
      modifies this`newSplits, this`newHot
      ensures plan == old(RetryPlanOf(Model()))
      ensures newSplits == [] && newHot == (if plan.BlobSplits? then old(newHot) else [])
    {
      if |newSplits| > 0 {
        plan := BlobSplits(newSplits);
        newSplits := [];
      } else if |newHot| > 0 {
        plan := HotRegions(newHot);
        newHot := [];
      } else {
        plan := Ready;
      }
    }

    method ReadReg(r: Reg) returns (e: Expr)
      modifies this
      ensures (Model(), e) == M.ReadReg(old(Model()), r)
    {
      if r in regs {
        e := regs[r];
        return;
      }
      e := InitReg(RegOld(r));
      regs := regs[r := e];
      pre := pre + [RegAtom(r, e)];
    }

    method WriteReg(r: Reg, e: Expr)
      modifies this
      ensures Model() == M.WriteReg(old(Model()), r, e)
    {
      if r !in regs {
        var init := InitReg(RegOld(r));
        regs := regs[r := init];
        pre := pre + [RegAtom(r, init)];
      }
      regs := regs[r := e];
    }

    method NoteAccess(base: Expr, off: i64, len: nat, key: SpanKey)
      modifies this`spans, this`errors
      ensures Model() == M.NoteAccess(old(Model()), base, off, len, key)
    {
      hide CanonAddr, WrapI;
      var c := CanonAddr(base, off);
      var hi := WrapI(c.disp + len);
      var i := 0;
      while i < |spans|
        invariant i <= |spans| && spans == old(spans) && errors == old(errors)
        invariant forall j :: 0 <= j < i ==> !Conflicts(spans[j], c.root, c.disp, hi, key)
      {
        if Conflicts(spans[i], c.root, c.disp, hi, key) {
          assert FindConflict(spans, c.root, c.disp, hi, key) == Some(i);
          errors := errors + [Overlap(key, spans[i].key)];
          return;
        }
        i := i + 1;
      }
      assert FindConflict(spans, c.root, c.disp, hi, key).None?;
      spans := spans + [Span(c.root, c.disp, hi, key)];
    }

    /** One pass over the cells: does any clash, and what region do the clashing ones span. */
    method RequestDemotionOnConflict(root: Root, lo: int, w: Width)
      modifies this`newHot
      ensures Model() == RequestDemotion(old(Model()), root, lo, w)
    {
      hide CanonAddr;
      var nlo, nhi, conflict := lo, lo + Len(w), false;
      var i := 0;
      while i < |mem|
        invariant i <= |mem|
        invariant Region(root, nlo, nhi) == ClashHull(mem, i, root, lo, w)
        invariant conflict <==> exists j | 0 <= j < i :: Clashes(mem[j], root, lo, w)
      {
        var c := mem[i];
        if Clashes(c, root, lo, w) {
          conflict := true;
          if CellDisp(c) < nlo { nlo := CellDisp(c); }
          if CellDisp(c) + Len(c.width) > nhi { nhi := CellDisp(c) + Len(c.width); }
        }
        i := i + 1;
      }
      if conflict || HotIntersects(hot, root, lo, lo + Len(w)) {
        newHot := newHot + [Region(root, nlo, nhi)];
      }
    }

    method LookupCellAliased(base: Expr, off: Off, w: Width) returns (f: Found)
      ensures f == Lookup(mem, base, off, w)
    {
      hide CanonAddr, IsExact, IsCanonAt;
      var i := 0;
      while i < |mem|
        invariant i <= |mem|
        invariant forall j :: 0 <= j < i ==> !IsExact(mem[j], base, off, w)
      {
        if IsExact(mem[i], base, off, w) {
          assert FindExact(mem, base, off, w) == Some(i);
          return Hit(i, false);
        }
        i := i + 1;
      }
      assert FindExact(mem, base, off, w).None?;
      var c := CanonAddr(base, off);
      i := 0;
      while i < |mem|
        invariant i <= |mem|
        invariant forall j :: 0 <= j < i ==> !IsCanonAt(mem[j], c.root, c.disp, w)
      {
        if IsCanonAt(mem[i], c.root, c.disp, w) {
          assert FindCanon(mem, c.root, c.disp, w) == Some(i);
          return Hit(i, true);
        }
        i := i + 1;
      }
      assert FindCanon(mem, c.root, c.disp, w).None?;
      f := Missing;
    }

    method FindByteCell(root: Root, disp: int) returns (r: Option<nat>)
      ensures r == FindByte(mem, root, disp)
    {
      hide IsByteAt;
      var i := 0;
      while i < |mem|
        invariant i <= |mem|
        invariant forall j :: 0 <= j < i ==> !IsByteAt(mem[j], root, disp)
      {
        if IsByteAt(mem[i], root, disp) {
          assert FindByte(mem, root, disp) == Some(i);
          return Some(i);
        }
        i := i + 1;
      }
      assert FindByte(mem, root, disp).None?;
      r := None;
    }

    method HotSlot(base: Expr, off: Off, k: nat) returns (i: nat)
      requires k < 8
      modifies this
      ensures (Model(), i) == M.HotSlot(old(Model()), base, off, k)
    {
      hide CanonAddr, FindByte, M.FreshSlot, M.ReuseSlot, IsByteAt;
      var c := CanonAddr(base, off);
      var r := FindByteCell(c.root, c.disp + k);
      if r.Some? {
        i := r.value;
        ReuseSlot(i, AddrTerm(base, off, k));
      } else {
        i := |mem|;
        FreshSlot(base, off, k);
      }
    }

    method ReuseSlot(i: nat, term: AddrTerm)
      requires i < |mem|
      modifies this`slotAliases, this`loadVars
      ensures Model() == M.ReuseSlot(old(Model()), i, term)
    {
      var cell := mem[i];
      if TermOf(cell) != term {
        slotAliases := slotAliases + [AliasEq(TermOf(cell), term)];
      }
      if cell.value.InitMem? && !HasBound(loadVars, cell.value.name) {
        loadVars := loadVars + [(cell.value.name, 8)];
      }
    }

    method FreshSlot(base: Expr, off: Off, k: nat)
      requires k < 8
      modifies this
      ensures Model() == M.FreshSlot(old(Model()), base, off, k)
    {
      hide M.NoteAccess, Allocate;
      var idx := AllocFreshName();
      var n := OldMem(Byte, idx);
      loadVars := loadVars + [(n, 8)];
      AddMemCell(MemCell(base, off, Byte, InitMem(n), k));
      NoteAccess(base, off + k, 1, HotKey(base, off, k));
    }

    method AddMemCell(cell: MemCell)
      modifies this`mem, this`pre
      ensures Model() == AddCell(old(Model()), cell)
    {
      mem := mem + [cell];
      pre := pre + [MemAtom(cell)];
    }

    method WriteHotWordImm(base: Expr, off: Off, imm: i64)
      modifies this
      ensures Model() == M.WriteHotWordImm(old(Model()), base, off, imm)
    {
      hide M.HotSlot, ByteOf, WrapU;
      var k := 0;
      while k < 4
        invariant k <= 4
        invariant HotStoreSlots(Model(), base, off, imm, k) == HotStoreSlots(old(Model()), base, off, imm, 0)
      {
        var i := HotSlot(base, off, k);
        mem := mem[i := mem[i].(value := Const(ByteOf(WrapU(imm), k)))];
        k := k + 1;
      }
      walk := walk + [Access(base, off, Word, true)];
    }

    /** The values of the eight byte slots, lowest first. */
    method LoadSlots(base: Expr, off: Off) returns (vs: seq<Expr>)
      modifies this
      ensures (Model(), vs) == HotLoadSlots(old(Model()), base, off, 0)
    {
      hide M.HotSlot, HotLoadSlots;
      vs := [];
      var k := 0;
      ghost var whole := HotLoadSlots(Model(), base, off, 0);
      assert whole.1 == vs + whole.1;
      while k < 8
        invariant k <= 8
        invariant whole.0 == HotLoadSlots(Model(), base, off, k).0
        invariant whole.1 == vs + HotLoadSlots(Model(), base, off, k).1
      {
        LoadSlotsStep(Model(), base, off, k);
        var i := HotSlot(base, off, k);
        vs := vs + [mem[i].value];
        k := k + 1;
      }
      LoadSlotsDone(Model(), base, off);
      assert whole.1 == vs;
    }

    method ReadHotWide(base: Expr, off: Off, w: Width) returns (e: Expr)
      modifies this
      ensures (Model(), e) == M.ReadHotWide(old(Model()), base, off, w)
    {
      hide M.HotSlot, HotLoadSlots;
      if !w.Dword? {
        errors := errors + [HotLoad(w, base, off)];
        return Raw(Rendering(Placeholder, []));
      }
      var vs := LoadSlots(base, off);
      walk := walk + [Access(base, off, Dword, false)];
      e := ByteCombo(vs);
    }

    /** A dword read of the last eight bytes of a registered blob asks for a split. */
    method PlanTailSplit(root: Root, lo: int)
      modifies this`newSplits
      ensures Model() == PlanSplit(old(Model()), root, lo)
    {
      var i := 0;
      ghost var found := Position(blobs, b => HoldsBlob(b, root, lo));
      while i < |blobs| && !HoldsBlob(blobs[i], root, lo)
        invariant i <= |blobs|
        invariant forall j :: 0 <= j < i ==> !HoldsBlob(blobs[j], root, lo)
      {
        i := i + 1;
      }
      if i < |blobs| {
        assert found == Some(i);
        var b := blobs[i];
        if lo - b.lo + 8 == b.len && (b.root, b.lo) !in splits {
          newSplits := newSplits + [(b.root, b.lo, lo - b.lo)];
        }
      } else {
        assert found.None?;
      }
    }

    method UseCell(base: Expr, off: Off, w: Width, i: nat, aliased: bool, writable: bool)
      requires i < |mem|
      modifies this`alias, this`walk
      ensures Model() == M.UseCell(old(Model()), base, off, w, i, aliased, writable)
    {
      if aliased {
        alias := Some(AliasEq(AddrTerm(base, off, 0), TermOf(mem[i])));
        walk := walk + [Access(mem[i].base, mem[i].off, w, writable)];
      } else {
        walk := walk + [Access(base, off, w, writable)];
      }
    }

    method LoadCell(base: Expr, off: Off, w: Width) returns (e: Expr)
      modifies this
      ensures (Model(), e) == M.LoadCell(old(Model()), base, off, w)
    {
      hide Lookup, FreshCell;
      var f := LookupCellAliased(base, off, w);
      if f.Hit? {
        e := mem[f.index].value;
        UseCell(base, off, w, f.index, f.aliased, false);
        return;
      }
      e := MaterializeCell(base, off, w);
    }

    method MaterializeCell(base: Expr, off: Off, w: Width) returns (e: Expr)
      modifies this
      ensures (Model(), e) == FreshCell(old(Model()), base, off, w)
    {
      hide M.NoteAccess, Allocate;
      var idx := AllocFreshName();
      var n := OldMem(w, idx);
      if !w.Byte? {
        loadVars := loadVars + [(n, 8 * Len(w))];
      }
      assert loadVars == old(loadVars) + LoadBound(w, n);
      hide LoadBound;
      NoteAccess(base, off, Len(w), CellKey(base, off, w));
      e := InitMem(n);
      AddMemCell(MemCell(base, off, w, e, 0));
      walk := walk + [Access(base, off, w, false)];
    }

    method ReadMemAt(base: Expr, off: Off, w: Width) returns (e: Expr)
      modifies this
      ensures (Model(), e) == M.ReadMemAt(old(Model()), base, off, w)
    {
      hide M.LoadCell, M.ReadHotWide, RequestDemotion, PlanSplit, HotCovers, CanonAddr;
      if !w.Byte? {
        var c := CanonAddr(base, off);
        if w.Dword? {
          PlanTailSplit(c.root, c.disp);
        }
        if HotCovers(hot, c.root, c.disp, c.disp + Len(w)) {
          e := ReadHotWide(base, off, w);
          return;
        }
        RequestDemotionOnConflict(c.root, c.disp, w);
      }
      e := LoadCell(base, off, w);
    }

    method ReadMem(r: Reg, off: Off, w: Width) returns (e: Expr)
      modifies this
      ensures (Model(), e) == M.ReadMem(old(Model()), r, off, w)
    {
      var base := ReadReg(r);
      e := ReadMemAt(base, off, w);
    }

    method WriteMem(r: Reg, off: Off, w: Width, value: Expr)
      modifies this
      ensures Model() == M.WriteMem(old(Model()), r, off, w, value)
    {
      hide M.ReadReg, M.WriteMemAt;
      var base := ReadReg(r);
      WriteMemAt(base, off, w, value);
    }

    method WriteMemAt(base: Expr, off: Off, w: Width, value: Expr)
      modifies this
      ensures Model() == M.WriteMemAt(old(Model()), base, off, w, value)
    {
      hide Model, StoreCell, HotCovers, CanonAddr, StoreHot, StoreCold;
      HotField();
      ghost var target := M.WriteMemAt(Model(), base, off, w, value);
      var c := CanonAddr(base, off);
      if w.Byte? {
        assert target == StoreCell(Model(), base, off, w, value);
        StoreThroughCell(base, off, w, value);
        assert Model() == target;
      } else if HotCovers(hot, c.root, c.disp, c.disp + Len(w)) {
        assert target == StoreHot(Model(), base, off, w, value);
        WriteHot(base, off, w, value);
        assert Model() == target;
      } else {
        assert target == StoreCold(Model(), c, base, off, w, value);
        WriteCold(c, base, off, w, value);
        assert Model() == target;
      }
    }

    /** A store outside the byte-granular regions, given up when it still meets one. */
    method WriteCold(c: Canon, base: Expr, off: Off, w: Width, value: Expr)
      modifies this
      ensures Model() == StoreCold(old(Model()), c, base, off, w, value)
    {
      hide StoreCell, RequestDemotion, HotIntersects;
      RequestDemotionOnConflict(c.root, c.disp, w);
      StoreUnless(HotIntersects(hot, c.root, c.disp, c.disp + Len(w)), base, off, w, value);
    }

    method StoreUnless(meets: bool, base: Expr, off: Off, w: Width, value: Expr)
      modifies this
      ensures Model() == if meets then old(Model()) else StoreCell(old(Model()), base, off, w, value)
    {
      hide StoreCell;
      if !meets {
        StoreThroughCell(base, off, w, value);
      }
    }

    /** A store into a byte-granular region: only a word immediate is supported. */
    method WriteHot(base: Expr, off: Off, w: Width, value: Expr)
      modifies this
      ensures Model() == StoreHot(old(Model()), base, off, w, value)
    {
      hide M.WriteHotWordImm;
      if w.Word? && value.StImm? && value.width.Word? {
        WriteHotWordImm(base, off, value.imm);
      } else {
        errors := errors + [HotStore(w, base, off)];
      }
    }

    method StoreThroughCell(base: Expr, off: Off, w: Width, value: Expr)
      modifies this
      ensures Model() == StoreCell(old(Model()), base, off, w, value)
    {
      hide M.StoreInto, M.Materialized;
      Materialize(base, off, w);
      StoreInto(base, off, w, value);
    }

    method StoreInto(base: Expr, off: Off, w: Width, value: Expr)
      modifies this
      ensures Model() == M.StoreInto(old(Model()), base, off, w, value)
    {
      hide Lookup, M.UseCell;
      var f := LookupCellAliased(base, off, w);
      if f.Hit? {
        SetValue(f.index, value);
        UseCell(base, off, w, f.index, f.aliased, true);
      }
    }

    method SetValue(i: nat, value: Expr)
      requires i < |mem|
      modifies this`mem
      ensures Model() == M.SetValue(old(Model()), i, value) && |mem| == |old(mem)|
    {
      mem := mem[i := mem[i].(value := value)];
    }

    /** A store to an unknown place reads it first, and drops the read's clause. */
    method Materialize(base: Expr, off: Off, w: Width)
      modifies this
      ensures Model() == Materialized(old(Model()), base, off, w)
    {
      hide Lookup, M.ReadMemAt;
      var f := LookupCellAliased(base, off, w);
      if f.Missing? {
        var _ := ReadMemAt(base, off, w);
        if |walk| > 0 {
          walk := walk[..|walk| - 1];
        }
      }
    }
  }

  /** The postcondition atoms, pushed one per precondition atom. */
  method BuildPostAtoms(pre: seq<Atom>, state: SymState) returns (post: seq<Atom>)
    ensures post == PostAtoms(pre, state.Model())
  {
    hide PostAtom;
    post := [];
    var i := 0;
    while i < |pre|
      invariant i <= |pre| && |post| == i
      invariant forall j :: 0 <= j < i ==> post[j] == PostAtom(pre[j], state.Model())
    {
      post := post + [PostAtom(pre[i], state.Model())];
      i := i + 1;
    }
  }
}
