/** When an overlap error is recorded, read off the cells that exist before an instruction. */
module LiftErrors {
  import opened Words
  import opened Alu
  import opened SymExpr
  import opened SymModel
  import opened Branch
  import opened LiftSound
  import opened Lift
  import opened LiftInvariants
  import opened LiftRecords
  import opened CanonShapes

  /** The footprint `[lo, lo + n)` on `root` overlaps that of the cell. Ends are signed words. */
  predicate Overlaps(c: MemCell, root: Root, lo: i64, n: nat) {
    var a := CellCanon(c);
    a.root == root && lo < WrapI(a.disp + Len(c.width)) && a.disp < WrapI(lo + n)
  }

  /** A new cell for `n` bytes at this address overlaps an existing cell. */
  predicate Collides(mem: seq<MemCell>, base: Expr, off: i64, n: nat) {
    var a := CanonAddr(base, off);
    exists i | 0 <= i < |mem| :: Overlaps(mem[i], a.root, a.disp, n)
  }

  predicate HasByte(mem: seq<MemCell>, root: Root, disp: int) {
    exists i | 0 <= i < |mem| :: IsByteAt(mem[i], root, disp)
  }

  /** Slot `j` of a byte-granular access has no cell yet, and a new one would overlap. */
  predicate SlotBlocked(mem: seq<MemCell>, base: Expr, off: Off, j: nat)
    requires j < 8
  {
    var a := CanonAddr(base, off);
    !HasByte(mem, a.root, a.disp + j) && Collides(mem, base, off + j, 1)
  }

  /** One of the slots `k`, ..., `n - 1` is blocked. */
  predicate SlotCollides(mem: seq<MemCell>, base: Expr, off: Off, k: nat, n: nat)
    requires n <= 8
  {
    exists j: nat | k <= j < n :: SlotBlocked(mem, base, off, j)
  }

  /** Away from the end of the signed range this is plain overlap of intervals on one root. */
  lemma OverlapsPlain(c: MemCell, root: Root, lo: i64, n: nat)
    requires Bounded(c) && lo + n < TWO63
    ensures Overlaps(c, root, lo, n)
            <==> CellCanon(c).root == root && lo < CellCanon(c).disp + Len(c.width) && CellCanon(c).disp < lo + n
  {
    hide CanonAddr;
    WrapIId(CellCanon(c).disp + Len(c.width));
    WrapIId(lo + n);
  }

  /** A cell is found exactly when one lies at the access's canonical address with its width. */
  lemma LookupIff(mem: seq<MemCell>, base: Expr, off: Off, w: Width)
    ensures var a := CanonAddr(base, off);
            Lookup(mem, base, off, w).Hit? <==> exists i :: 0 <= i < |mem| && IsCanonAt(mem[i], a.root, a.disp, w)
  {
    hide CanonAddr;
    var a := CanonAddr(base, off);
    var x, c := FindExact(mem, base, off, w), FindCanon(mem, a.root, a.disp, w);
    hide FindExact, FindCanon;
    if x.Some? {
      assert IsCanonAt(mem[x.value], a.root, a.disp, w);
    } else if c.Some? {
      assert IsCanonAt(mem[c.value], a.root, a.disp, w);
    }
  }

  /** A cell's canonical address, read off its base, offset and slot. */
  lemma CellCanonIs(c: MemCell)
    requires c.delta < 8 && CellDisp(c) < TWO63
    ensures CellCanon(c) == Canon(CellRoot(c), CellDisp(c))
  {
    hide CanonAddr, WrapI;
    WrapIId(c.off + c.delta);
    CanonShift(c.base, c.off, c.delta);
    WrapIId(CellDisp(c));
  }

  /** Away from the end of the signed range, a cell clashes with a wide access exactly when it
      overlaps it and is not the cell of that very access. */
  lemma ClashIff(c: MemCell, root: Root, lo: i64, w: Width)
    requires c.delta < 8 && CellDisp(c) + 8 < TWO63 && lo + 8 < TWO63
    ensures Clashes(c, root, lo, w) <==> Overlaps(c, root, lo, Len(w)) && !IsCanonAt(c, root, lo, w)
  {
    hide CanonAddr, CellCanon, WrapI, CellDisp, CellRoot;
    CellCanonIs(c);
    WrapIId(CellCanon(c).disp + Len(c.width));
    WrapIId(lo + Len(w));
  }

  // ----- noting an access -----

  /** A conflict among the recorded spans is an overlap among the cells. */
  lemma ConflictIff(spans: seq<Span>, mem: seq<MemCell>, base: Expr, off: i64, n: nat, key: SpanKey)
    requires SpanInv(spans, mem) && forall i :: 0 <= i < |spans| ==> spans[i].key != key
    ensures var a := CanonAddr(base, off);
            FindConflict(spans, a.root, a.disp, WrapI(a.disp + n), key).Some? <==> Collides(mem, base, off, n)
  {
    hide CanonAddr, WrapI, FindConflict, CellCanon, Apart;
    var a := CanonAddr(base, off);
    forall i | 0 <= i < |mem|
      ensures Conflicts(spans[i], a.root, a.disp, WrapI(a.disp + n), key) <==> Overlaps(mem[i], a.root, a.disp, n)
    {
      assert SpanFor(spans[i], mem[i]);
    }
    var f := FindConflict(spans, a.root, a.disp, WrapI(a.disp + n), key);
    if f.Some? {
      assert Overlaps(mem[f.value], a.root, a.disp, n);
    }
    if Collides(mem, base, off, n) {
      var i :| 0 <= i < |mem| && Overlaps(mem[i], a.root, a.disp, n);
      assert Conflicts(spans[i], a.root, a.disp, WrapI(a.disp + n), key);
    }
  }

  lemma NoteErrs(s: Sym, mem: seq<MemCell>, base: Expr, off: i64, n: nat, key: SpanKey)
    requires SpanInv(s.spans, mem) && s.errors == [] && forall i :: 0 <= i < |s.spans| ==> s.spans[i].key != key
    ensures NoteAccess(s, base, off, n, key).errors == [] <==> !Collides(mem, base, off, n)
  {
    hide CanonAddr, WrapI, FindConflict, Collides, SpanInv;
    ConflictIff(s.spans, mem, base, off, n, key);
  }

  // ----- plain cells -----

  lemma LoadCellErrs(s: Sym, base: Expr, off: Off, w: Width)
    requires Wf(s) && s.errors == []
    ensures LoadCell(s, base, off, w).0.errors == []
            <==> Lookup(s.mem, base, off, w).Hit? || !Collides(s.mem, base, off, Len(w))
  {
    hide Lookup, NoteAccess, NameInv, BoundInv, BytesShaped, AtomsMatch, Collides, CellCanon;
    if Lookup(s.mem, base, off, w).Missing? {
      var (names, idx) := Allocate(s.names);
      var n := OldMem(w, idx);
      var s1 := s.(names := names, loadVars := s.loadVars + LoadBound(w, n));
      var key := CellKey(base, off, w);
      forall i | 0 <= i < |s.spans|
        ensures s.spans[i].key != key
      {
        assert SpanFor(s.spans[i], s.mem[i]);
        NotExact(s.mem, base, off, w, i);
      }
      NoteErrs(s1, s.mem, base, off, Len(w), key);
    }
  }

  // ----- slots -----

  lemma HotSlotErrs(s: Sym, base: Expr, off: Off, k: nat)
    requires Wf(s) && s.errors == [] && k < 8
    ensures HotSlot(s, base, off, k).0.errors == [] <==> !SlotBlocked(s.mem, base, off, k)
  {
    hide CanonAddr, Wf, Collides, HasByte, FindByte, ReuseSlot, FreshSlot;
    var a := CanonAddr(base, off);
    HasByteFound(s.mem, a.root, a.disp + k);
    if FindByte(s.mem, a.root, a.disp + k).None? {
      FreshSlotErrs(s, base, off, k);
    } else {
      ReuseErrs(s, FindByte(s.mem, a.root, a.disp + k).value, AddrTerm(base, off, k));
    }
  }

  lemma ReuseErrs(s: Sym, i: nat, term: AddrTerm)
    requires i < |s.mem|
    ensures ReuseSlot(s, i, term).errors == s.errors
  {
  }

  lemma HasByteFound(mem: seq<MemCell>, root: Root, disp: int)
    ensures FindByte(mem, root, disp).Some? <==> HasByte(mem, root, disp)
  {
    hide IsByteAt;
    var f := FindByte(mem, root, disp);
    hide FindByte;
    if f.Some? {
      assert IsByteAt(mem[f.value], root, disp);
    }
  }

  lemma FreshSlotErrs(s: Sym, base: Expr, off: Off, k: nat)
    requires Wf(s) && s.errors == [] && k < 8
    requires FindByte(s.mem, CanonAddr(base, off).root, CanonAddr(base, off).disp + k).None?
    ensures FreshSlot(s, base, off, k).errors == [] <==> !Collides(s.mem, base, off + k, 1)
  {
    hide CanonAddr, NoteAccess, NameInv, BoundInv, BytesShaped, AtomsMatch, Collides, CellCanon, FindByte, Allocate;
    var a := CanonAddr(base, off);
    var (names, idx) := Allocate(s.names);
    var n := OldMem(Byte, idx);
    var s1 := s.(names := names, loadVars := s.loadVars + [(n, 8)]);
    var key := HotKey(base, off, k);
    forall i | 0 <= i < |s.spans|
      ensures s.spans[i].key != key
    {
      assert SpanFor(s.spans[i], s.mem[i]);
      assert !IsByteAt(s.mem[i], a.root, a.disp + k);
    }
    NoteErrs(AddCell(s1, MemCell(base, off, Byte, InitMem(n), k)), s.mem, base, off + k, 1, key);
  }

  /** A slot's own cell lies beside the later slots. */
  lemma SlotBeside(base: Expr, off: Off, v: Expr, j: nat, k: nat)
    requires j < k < 8
    ensures var c, a := MemCell(base, off, Byte, v, j), CanonAddr(base, off);
            !IsByteAt(c, a.root, a.disp + k)
            && !Overlaps(c, CanonAddr(base, off + k).root, CanonAddr(base, off + k).disp, 1)
  {
    hide CanonAddr, WrapI;
    WrapIId(off + j);
    WrapIId(off + k);
    CanonShift(base, off, j);
    CanonShift(base, off, k);
    DistinctBytes(CanonAddr(base, off).disp, j, k);
  }

  lemma DistinctBytes(d: i64, j: nat, k: nat)
    requires j < k < 8
    ensures var x, y := WrapI(d + j), WrapI(d + k); !(y < WrapI(x + 1) && x < WrapI(y + 1))
  {
  }

  /** Two cell lists that no later slot can tell apart. */
  ghost predicate SameForSlots(mem: seq<MemCell>, mem': seq<MemCell>, base: Expr, off: Off, k: nat) {
    forall j: nat :: k <= j < 8 ==> (SlotBlocked(mem', base, off, j) <==> SlotBlocked(mem, base, off, j))
  }

  ghost predicate SameKeys(mem: seq<MemCell>, mem': seq<MemCell>) {
    |mem'| == |mem| && forall i :: 0 <= i < |mem| ==> SameKey(mem[i], mem'[i])
  }

  lemma HasByteByKeys(mem: seq<MemCell>, mem': seq<MemCell>, root: Root, disp: int)
    requires SameKeys(mem, mem') && HasByte(mem, root, disp)
    ensures HasByte(mem', root, disp)
  {
    hide CanonAddr;
    var i :| 0 <= i < |mem| && IsByteAt(mem[i], root, disp);
    assert SameKey(mem[i], mem'[i]);
    assert IsByteAt(mem'[i], root, disp);
  }

  lemma CollidesByKeys(mem: seq<MemCell>, mem': seq<MemCell>, base: Expr, off: i64, n: nat)
    requires SameKeys(mem, mem') && Collides(mem, base, off, n)
    ensures Collides(mem', base, off, n)
  {
    hide CanonAddr, WrapI;
    var a := CanonAddr(base, off);
    var i :| 0 <= i < |mem| && Overlaps(mem[i], a.root, a.disp, n);
    assert SameKey(mem[i], mem'[i]);
    assert Overlaps(mem'[i], a.root, a.disp, n);
  }

  lemma BlockedByKeys(mem: seq<MemCell>, mem': seq<MemCell>, base: Expr, off: Off, j: nat)
    requires j < 8 && SameKeys(mem, mem') && SameKeys(mem', mem)
    ensures SlotBlocked(mem', base, off, j) <==> SlotBlocked(mem, base, off, j)
  {
    hide CanonAddr, HasByte, Collides, SameKeys;
    var a := CanonAddr(base, off);
    if HasByte(mem, a.root, a.disp + j) {
      HasByteByKeys(mem, mem', a.root, a.disp + j);
    }
    if HasByte(mem', a.root, a.disp + j) {
      HasByteByKeys(mem', mem, a.root, a.disp + j);
    }
    if Collides(mem, base, off + j, 1) {
      CollidesByKeys(mem, mem', base, off + j, 1);
    }
    if Collides(mem', base, off + j, 1) {
      CollidesByKeys(mem', mem, base, off + j, 1);
    }
  }

  lemma BlockedByAppend(mem: seq<MemCell>, base: Expr, off: Off, v: Expr, k: nat, j: nat)
    requires k < j < 8
    ensures SlotBlocked(mem + [MemCell(base, off, Byte, v, k)], base, off, j) <==> SlotBlocked(mem, base, off, j)
  {
    var c := MemCell(base, off, Byte, v, k);
    SlotBeside(base, off, v, k, j);
    hide CanonAddr, IsByteAt, Overlaps;
    var a, b, mem' := CanonAddr(base, off), CanonAddr(base, off + j), mem + [c];
    assert mem'[|mem|] == c;
    if HasByte(mem, a.root, a.disp + j) {
      var i :| 0 <= i < |mem| && IsByteAt(mem[i], a.root, a.disp + j);
      assert IsByteAt(mem'[i], a.root, a.disp + j);
    }
    if Collides(mem, base, off + j, 1) {
      var i :| 0 <= i < |mem| && Overlaps(mem[i], b.root, b.disp, 1);
      assert Overlaps(mem'[i], b.root, b.disp, 1);
    }
  }

  lemma HotSlotKeepsRest(s: Sym, base: Expr, off: Off, k: nat)
    requires k < 8
    ensures SameForSlots(s.mem, HotSlot(s, base, off, k).0.mem, base, off, k + 1)
  {
    hide CanonAddr, NoteAccess, SlotBlocked, FindByte, Allocate;
    var s' := HotSlot(s, base, off, k).0;
    var (names, idx) := Allocate(s.names);
    var n := OldMem(Byte, idx);
    var s1 := s.(names := names, loadVars := s.loadVars + [(n, 8)]);
    NoteAccessKeeps(AddCell(s1, MemCell(base, off, Byte, InitMem(n), k)), base, off + k, 1, HotKey(base, off, k));
    assert s'.mem == s.mem || s'.mem == s.mem + [MemCell(base, off, Byte, InitMem(n), k)];
    forall j: nat | k + 1 <= j < 8
      ensures SlotBlocked(s'.mem, base, off, j) <==> SlotBlocked(s.mem, base, off, j)
    {
      BlockedByAppend(s.mem, base, off, InitMem(n), k, j);
    }
  }

  lemma SetValueKeepsRest(s: Sym, i: nat, e: Expr, base: Expr, off: Off, k: nat)
    requires i < |s.mem|
    ensures SameForSlots(s.mem, SetValue(s, i, e).mem, base, off, k)
  {
    hide SlotBlocked;
    forall j: nat | k <= j < 8
      ensures SlotBlocked(SetValue(s, i, e).mem, base, off, j) <==> SlotBlocked(s.mem, base, off, j)
    {
      BlockedByKeys(s.mem, SetValue(s, i, e).mem, base, off, j);
    }
  }

  lemma CollidesLater(mem: seq<MemCell>, mem': seq<MemCell>, base: Expr, off: Off, k: nat, n: nat)
    requires k < n <= 8 && SameForSlots(mem, mem', base, off, k + 1)
    ensures SlotCollides(mem, base, off, k, n) <==> SlotBlocked(mem, base, off, k) || SlotCollides(mem', base, off, k + 1, n)
  {
    hide SlotBlocked;
    if SlotCollides(mem, base, off, k, n) && !SlotBlocked(mem, base, off, k) {
      var j: nat :| k <= j < n && SlotBlocked(mem, base, off, j);
      assert SlotBlocked(mem', base, off, j);
    }
    if SlotCollides(mem', base, off, k + 1, n) {
      var j: nat :| k + 1 <= j < n && SlotBlocked(mem', base, off, j);
      assert SlotBlocked(mem, base, off, j);
    }
  }

  lemma {:induction false} HotLoadSlotsErrs(s: Sym, base: Expr, off: Off, k: nat)
    requires Wf(s) && s.errors == [] && k <= 8
    ensures HotLoadSlots(s, base, off, k).0.errors == [] <==> !SlotCollides(s.mem, base, off, k, 8)
    decreases 8 - k
  {
    hide HotSlot, Wf, SlotBlocked, SlotCollides, SameForSlots, Grows;
    if k == 8 {
      NoSlots(s.mem, base, off, 8);
    } else {
      var s1 := HotSlot(s, base, off, k).0;
      HotSlotErrs(s, base, off, k);
      HotSlotWf(s, base, off, k);
      HotSlotKeepsRest(s, base, off, k);
      CollidesLater(s.mem, s1.mem, base, off, k, 8);
      if s1.errors == [] {
        HotLoadSlotsErrs(s1, base, off, k + 1);
      } else {
        HotLoadSlotsGrows(s1, base, off, k + 1);
        ErrorsGrow(s1, HotLoadSlots(s, base, off, k).0);
      }
    }
  }

  lemma NoSlots(mem: seq<MemCell>, base: Expr, off: Off, n: nat)
    requires n <= 8
    ensures !SlotCollides(mem, base, off, n, n)
  {
  }

  lemma ErrorsGrow(s: Sym, s': Sym)
    requires Grows(s, s') && s.errors != []
    ensures s'.errors != []
  {
  }

  lemma {:induction false} HotStoreSlotsErrs(s: Sym, base: Expr, off: Off, imm: i64, k: nat)
    requires Wf(s) && s.errors == [] && k <= 4
    ensures HotStoreSlots(s, base, off, imm, k).errors == [] <==> !SlotCollides(s.mem, base, off, k, 4)
    decreases 4 - k
  {
    hide HotSlot, Wf, SlotBlocked, SlotCollides, Grows, ByteOf, WrapU;
    if k == 4 {
      NoSlots(s.mem, base, off, 4);
    } else {
      var (s1, i) := HotSlot(s, base, off, k);
      var e := Const(ByteOf(WrapU(imm), k));
      var s2 := SetValue(s1, i, e);
      HotSlotErrs(s, base, off, k);
      HotSlotWf(s, base, off, k);
      SetValueWf(s1, i, e);
      HotSlotKeepsRest(s, base, off, k);
      SetValueKeepsRest(s1, i, e, base, off, k + 1);
      CollidesLater(s.mem, s2.mem, base, off, k, 4);
      if s2.errors == [] {
        HotStoreSlotsErrs(s2, base, off, imm, k + 1);
      } else {
        HotStoreSlotsGrows(s2, base, off, imm, k + 1);
        ErrorsGrow(s2, HotStoreSlots(s, base, off, imm, k));
      }
    }
  }

  // ----- loads and stores -----

  /** A store into a byte-granular region that the lifter supports. */
  predicate WordImmediate(t: Touch, stored: Expr) {
    t.width.Word? && stored.StImm? && stored.width.Word?
  }

  /** The access records an error. Served by bytes, it must be a dword load or a word immediate store
      and no slot may be blocked. Otherwise it must find its cell, or the new cell must not overlap;
      a wide store that straddles a byte-granular region makes no cell. */
  predicate Errs(s: Sym, t: Touch, stored: Expr) {
    var a := CanonAddr(t.base, t.off);
    if ByBytes(s, t) then
      if t.writable then !WordImmediate(t, stored) || SlotCollides(s.mem, t.base, t.off, 0, 4)
      else !t.width.Dword? || SlotCollides(s.mem, t.base, t.off, 0, 8)
    else
      Lookup(s.mem, t.base, t.off, t.width).Missing? && Collides(s.mem, t.base, t.off, Len(t.width))
      && !(t.writable && !t.width.Byte? && HotIntersects(s.hot, a.root, a.disp, a.disp + Len(t.width)))
  }

  lemma ColdReadErrs(s: Sym, t: Touch)
    requires Wf(s) && s.errors == [] && !ByBytes(s, t)
    ensures ReadMemAt(s, t.base, t.off, t.width).0.errors == []
            <==> Lookup(s.mem, t.base, t.off, t.width).Hit? || !Collides(s.mem, t.base, t.off, Len(t.width))
  {
    hide ReadMemAt, LoadCell, Lookup, ByBytes, Collides, Wf;
    var s1 := ColdRead(s, t);
    WfSame(s, s1);
    LoadCellErrs(s1, t.base, t.off, t.width);
  }

  lemma HotReadErrs(s: Sym, t: Touch)
    requires Wf(s) && s.errors == [] && ByBytes(s, t)
    ensures ReadMemAt(s, t.base, t.off, t.width).0.errors == []
            <==> t.width.Dword? && !SlotCollides(s.mem, t.base, t.off, 0, 8)
  {
    hide HotLoadSlots, LoadCell, HotCovers, CanonAddr, PlanSplit, RequestDemotion, Wf, SlotCollides;
    var a := CanonAddr(t.base, t.off);
    PlansKeep(s, a.root, a.disp, t.width);
    var s1 := if t.width.Dword? then PlanSplit(s, a.root, a.disp) else s;
    WfSame(s, s1);
    assert ReadMemAt(s, t.base, t.off, t.width) == ReadHotWide(s1, t.base, t.off, t.width);
    HotLoadSlotsErrs(s1, t.base, t.off, 0);
  }

  lemma ReadMemAtErrs(s: Sym, t: Touch, e: Expr)
    requires Wf(s) && s.errors == [] && !t.writable
    ensures ReadMemAt(s, t.base, t.off, t.width).0.errors == [] <==> !Errs(s, t, e)
  {
    hide ReadMemAt, Lookup, ByBytes, Collides, SlotCollides, Wf, CanonAddr, HotIntersects;
    if ByBytes(s, t) {
      HotReadErrs(s, t);
    } else {
      ColdReadErrs(s, t);
    }
  }

  lemma StoreCellErrs(s: Sym, t: Touch, e: Expr)
    requires Wf(s) && s.errors == [] && !ByBytes(s, t)
    ensures StoreCell(s, t.base, t.off, t.width, e).errors == []
            <==> Lookup(s.mem, t.base, t.off, t.width).Hit? || !Collides(s.mem, t.base, t.off, Len(t.width))
  {
    hide ReadMemAt, Lookup, ByBytes, Collides, Wf, StoreInto;
    ColdReadErrs(s, t);
    StoreIntoErrs(Materialized(s, t.base, t.off, t.width), t, e);
  }

  lemma StoreIntoErrs(s: Sym, t: Touch, e: Expr)
    ensures StoreInto(s, t.base, t.off, t.width, e).errors == s.errors
  {
    hide Lookup;
  }

  lemma StoreColdErrs(s: Sym, t: Touch, e: Expr)
    requires Wf(s) && s.errors == [] && !ByBytes(s, t) && t.writable && !t.width.Byte?
    ensures StoreCold(s, CanonAddr(t.base, t.off), t.base, t.off, t.width, e).errors == [] <==> !Errs(s, t, e)
  {
    hide StoreCell, HotCovers, HotIntersects, CanonAddr, Lookup, Collides, Wf, RequestDemotion, PlanSplit;
    var a := CanonAddr(t.base, t.off);
    PlansKeep(s, a.root, a.disp, t.width);
    var s1 := RequestDemotion(s, a.root, a.disp, t.width);
    WfSame(s, s1);
    StoreCellErrs(s1, t, e);
  }

  lemma StoreHotErrs(s: Sym, t: Touch, e: Expr)
    requires Wf(s) && s.errors == []
    ensures StoreHot(s, t.base, t.off, t.width, e).errors == []
            <==> WordImmediate(t, e) && !SlotCollides(s.mem, t.base, t.off, 0, 4)
  {
    hide HotStoreSlots, Wf, SlotCollides;
    if e.StImm? {
      HotStoreSlotsErrs(s, t.base, t.off, e.imm, 0);
    }
  }

  lemma WriteMemAtErrs(s: Sym, t: Touch, e: Expr)
    requires Wf(s) && s.errors == [] && t.writable
    ensures WriteMemAt(s, t.base, t.off, t.width, e).errors == [] <==> !Errs(s, t, e)
  {
    hide StoreCell, StoreHot, StoreCold, HotCovers, CanonAddr, Wf, Lookup, Collides, SlotCollides, WordImmediate, HotIntersects;
    var Touch(base, off, w, _) := t;
    var a := CanonAddr(base, off);
    var s' := WriteMemAt(s, base, off, w, e);
    if w.Byte? {
      assert s' == StoreCell(s, base, off, w, e);
      StoreCellErrs(s, t, e);
    } else if HotCovers(s.hot, a.root, a.disp, a.disp + Len(w)) {
      assert s' == StoreHot(s, base, off, w, e);
      StoreHotErrs(s, t, e);
    } else {
      assert s' == StoreCold(s, a, base, off, w, e);
      StoreColdErrs(s, t, e);
    }
  }

  // ----- paths -----

  /** What an instruction stores. */
  function StoredBy(insn: Insn, s: Sym): Expr {
    match insn
    case Stx(w, _, _, src) => StoredReg(w, ReadReg(s, src).1)
    case StoreImm(w, _, _, imm) => StoredImm(w, imm)
    case _ => Const(0)
  }

  predicate StepErrs(insn: Insn, s: Sym) {
    Touched(insn, s).Some? && Errs(s, Touched(insn, s).value, StoredBy(insn, s))
  }

  /** `Errs` looks at cells and plan only. */
  lemma SameErrs(s: Sym, s': Sym, t: Touch, e: Expr)
    requires s'.mem == s.mem && s'.hot == s.hot
    ensures Errs(s', t, e) == Errs(s, t, e)
  {
    hide HotCovers, HotIntersects, CanonAddr, Lookup, Collides, SlotCollides, WordImmediate;
  }

  lemma LoadStepErrs(insn: Insn, st: State)
    requires insn.Ldx? && Wf(st.s) && st.s.errors == []
    ensures SymStep(insn, st).s.errors == [] <==> !StepErrs(insn, st.s)
  {
    hide ReadReg, ReadMemAt, WriteReg, ReloadHyps, Errs, Wf, AliasInv;
    var Ldx(w, dst, src, off) := insn;
    var (s1, base) := ReadReg(st.s, src);
    var t := Touch(base, off, w, false);
    RegRecords(st.s, src, base);
    RegWf(st.s, src, base);
    SameErrs(st.s, s1, t, Const(0));
    ReadMemAtErrs(s1, t, Const(0));
    var (s2, raw) := ReadMemAt(s1, base, off, w);
    RegRecords(s2, dst, StoredReg(w, raw));
  }

  lemma StoreStepErrs(insn: Insn, st: State)
    requires (insn.Stx? || insn.StoreImm?) && Wf(st.s) && st.s.errors == []
    ensures SymStep(insn, st).s.errors == [] <==> !StepErrs(insn, st.s)
  {
    hide ReadReg, WriteMemAt, StoredReg, StoredImm, Errs, Wf, AliasInv;
    var s1 := if insn.Stx? then ReadReg(st.s, insn.src).0 else st.s;
    var e := StoredBy(insn, st.s);
    if insn.Stx? {
      RegRecords(st.s, insn.src, Const(0));
      RegWf(st.s, insn.src, Const(0));
    }
    var (s2, base) := ReadReg(s1, insn.dst);
    var t := Touch(base, insn.off, insn.w, true);
    RegRecords(s1, insn.dst, base);
    RegWf(s1, insn.dst, base);
    SameErrs(st.s, s2, t, e);
    WriteMemAtErrs(s2, t, e);
    assert SymStep(insn, st).s == WriteMemAt(s2, base, insn.off, insn.w, e);
  }

  /** One instruction records an error exactly when its access does. */
  lemma StepErrsIff(insn: Insn, st: State)
    requires Wf(st.s) && st.s.errors == []
    ensures SymStep(insn, st).s.errors == [] <==> !StepErrs(insn, st.s)
  {
    hide SymStep, Errs, Wf, ReadReg, AliasInv;
    if insn.Ldx? {
      LoadStepErrs(insn, st);
    } else if TouchesMemory(insn) {
      StoreStepErrs(insn, st);
    } else {
      QuietRecords(insn, st);
    }
  }

  predicate RunErrs(prog: seq<Insn>, st: State) {
    |prog| > 0 && (StepErrs(prog[0], st.s) || RunErrs(prog[1..], SymStep(prog[0], st)))
  }

  lemma {:induction false} RunErrsIff(prog: seq<Insn>, st: State)
    requires Wf(st.s) && st.s.errors == []
    ensures SymRun(prog, st).s.errors == [] <==> !RunErrs(prog, st)
  {
    hide SymStep, StepErrs, Wf, Grows;
    if |prog| > 0 {
      var st1 := SymStep(prog[0], st);
      StepErrsIff(prog[0], st);
      StepWf(prog[0], st);
      if st1.s.errors == [] {
        RunErrsIff(prog[1..], st1);
      } else {
        RunGrows(prog[1..], st1);
        ErrorsGrow(st1.s, SymRun(prog, st).s);
      }
    }
  }

  /** A path ends without overlap errors if and only if no access of it creates a cell that overlaps
      another cell on its root, or is served by bytes in a form the lifter does not support. */
  lemma PathErrsIff(prog: seq<Insn>, hot: seq<Region>, splits: map<(Root, int), int>)
    ensures SymRun(prog, Start(hot, splits)).s.errors == [] <==> !RunErrs(prog, Start(hot, splits))
  {
    hide SymRun, RunErrs;
    StartWf(hot, splits);
    RunErrsIff(prog, Start(hot, splits));
  }

  // ----- errors and requests -----

  /** Every displacement in sight is away from the end of the signed range. */
  ghost predicate Near(s: Sym, t: Touch) {
    CanonAddr(t.base, t.off).disp + 8 < TWO63
    && forall i :: 0 <= i < |s.mem| ==> s.mem[i].delta < 8 && CellDisp(s.mem[i]) + 8 < TWO63
  }

  /** A wide access outside byte-granular regions never ends a pass with an overlap error alone: it
      also asks for the region, and the pass is repeated. */
  lemma WideErrorIsAsked(s: Sym, t: Touch, e: Expr)
    requires !t.width.Byte? && !ByBytes(s, t) && Errs(s, t, e) && Near(s, t)
    ensures AnyClash(s.mem, CanonAddr(t.base, t.off).root, CanonAddr(t.base, t.off).disp, t.width)
  {
    hide CanonAddr, Lookup, CellDisp, Clashes, IsCanonAt, Overlaps, HotCovers, HotIntersects;
    var a := CanonAddr(t.base, t.off);
    LookupIff(s.mem, t.base, t.off, t.width);
    var i :| 0 <= i < |s.mem| && Overlaps(s.mem[i], a.root, a.disp, Len(t.width));
    ClashIff(s.mem[i], a.root, a.disp, t.width);
    assert Clashes(s.mem[i], a.root, a.disp, t.width);
  }

  // ----- address arithmetic -----

  lemma SumExprs(a: Expr, k: i64)
    ensures AluExpr(Wide, Add, a, ToU64(Const(k)), ImmOp(k)) == Binary(WrapAdd, a, ToU64(Const(k)))
    ensures AluExpr(Wide, Sub, a, ToU64(Const(k)), ImmOp(k)) == Binary(WrapSub, a, ToU64(Const(k)))
  {
  }

  lemma MovesBy(op: BinaryOp, a: Expr, e: Expr, k: i64, d: int, acc: i64)
    requires ConstOf(e) == Some(k) && (op.WrapAdd? || op.NatAdd? || op.WrapSub?) && d == (if op.WrapSub? then 0 - k else k)
    requires CanonGo(a, acc).Some?
    ensures var c := CanonGo(a, acc).value; CanonGo(Binary(op, a, e), acc) == Some(Canon(c.root, WrapI(c.disp + d)))
  {
    hide WrapI, CanonGo, ConstOf;
    RightConstant(op, a, e, k, acc);
    CanonGoShift(a, acc, d);
  }

  /** Adding or subtracting an immediate, and entering a frame, move a recognised address and keep
      its root. */
  lemma ArithmeticKeepsRoot(a: Expr, k: i64, acc: i64)
    requires CanonGo(a, acc).Some?
    ensures var c := CanonGo(a, acc).value;
            CanonGo(AluExpr(Wide, Add, a, ToU64(Const(k)), ImmOp(k)), acc) == Some(Canon(c.root, WrapI(c.disp + k)))
            && CanonGo(AluExpr(Wide, Sub, a, ToU64(Const(k)), ImmOp(k)), acc) == Some(Canon(c.root, WrapI(c.disp - k)))
            && CanonGo(Binary(NatAdd, a, Const(k)), acc) == Some(Canon(c.root, WrapI(c.disp + k)))
  {
    assert ConstOf(Const(k)) == Some(k) && ConstOf(ToU64(Const(k))) == Some(k);
    hide WrapI, AluExpr, CanonGo, ConstOf;
    SumExprs(a, k);
    var m: int := 0 - k;
    MovesBy(WrapAdd, a, ToU64(Const(k)), k, k, acc);
    MovesBy(WrapSub, a, ToU64(Const(k)), k, m, acc);
    MovesBy(NatAdd, a, Const(k), k, k, acc);
    assert CanonGo(a, acc).value.disp + m == CanonGo(a, acc).value.disp - k;
  }
}
