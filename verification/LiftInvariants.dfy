/** What every path keeps about footprints and names: accepted footprints on one root are
    disjoint, and every atom has a variable of its own. */
module LiftInvariants {
  import opened Words
  import opened Alu
  import opened SymExpr
  import opened SymModel
  import opened Branch
  import opened LiftSound
  import opened Lift

  // ----- footprints -----

  function CellCanon(c: MemCell): Canon {
    CanonAddr(c.base, WrapI(c.off + c.delta))
  }

  /** The span recorded for a cell. */
  ghost predicate SpanFor(e: Span, c: MemCell) {
    e.root == CellCanon(c).root && e.lo == CellCanon(c).disp && e.hi == WrapI(e.lo + Len(c.width))
    && (if e.key.CellKey? then e.key == CellKey(c.base, c.off, c.width) && c.delta == 0
        else e.key == HotKey(c.base, c.off, c.delta) && c.width.Byte?)
  }

  predicate Apart(e: Span, f: Span) {
    e.root == f.root ==> !(e.lo < f.hi && f.lo < e.hi)
  }

  ghost predicate SpanInv(spans: seq<Span>, mem: seq<MemCell>) {
    |spans| == |mem|
    && (forall i :: 0 <= i < |mem| ==> SpanFor(spans[i], mem[i]) && mem[i].delta < 8)
    && (forall i, j :: 0 <= i < j < |spans| ==> Apart(spans[i], spans[j]))
  }

  // ----- names -----

  /** Reserved indices are pending, distinct, and below the counter. */
  ghost predicate NamesOk(n: Names) {
    (forall i :: 0 <= i < |n.reserved| ==> n.reserved[i] < n.next)
    && (forall i, j :: 0 <= i < j < |n.reserved| ==> n.reserved[i] != n.reserved[j])
  }

  predicate Used(n: Names, idx: nat) {
    idx < n.next && idx !in n.reserved
  }

  lemma ReserveFresh(n: Names)
    requires NamesOk(n)
    ensures NamesOk(Reserve(n).0) && !Used(n, Reserve(n).1)
    ensures forall i :: Used(n, i) ==> Used(Reserve(n).0, i)
  {
  }

  lemma AllocateFresh(n: Names)
    requires NamesOk(n)
    ensures NamesOk(Allocate(n).0) && !Used(n, Allocate(n).1) && Used(Allocate(n).0, Allocate(n).1)
    ensures forall i :: Used(n, i) ==> Used(Allocate(n).0, i)
  {
    var (n', idx) := Allocate(n);
    if |n.reserved| > 0 {
      assert n.reserved == [idx] + n'.reserved;
      assert idx !in n'.reserved;
    }
  }

  /** Reserving takes no name and every allocated index is new, whatever the interleaving. */
  lemma NamesFresh(n: Names)
    requires NamesOk(n)
    ensures NamesOk(Reserve(n).0) && !Used(n, Reserve(n).1)
    ensures NamesOk(Allocate(n).0) && !Used(n, Allocate(n).1) && Used(Allocate(n).0, Allocate(n).1)
    ensures forall i :: Used(n, i) ==> Used(Allocate(n).0, i) && Used(Reserve(n).0, i)
  {
    hide NamesOk, Used, Reserve, Allocate;
    ReserveFresh(n);
    AllocateFresh(n);
  }

  /** Any list of calls to the name source, with what it hands out: every index reserved, every
      index allocated, and the allocations that served a reservation. */
  datatype NameCall = ReserveCall | AllocateCall

  datatype NameRun = NameRun(names: Names, reserved: seq<nat>, given: seq<nat>, served: seq<nat>)

  function NameStep(call: NameCall, r: NameRun): NameRun {
    match call
    case ReserveCall =>
      var (n, idx) := Reserve(r.names);
      r.(names := n, reserved := r.reserved + [idx])
    case AllocateCall =>
      var (n, idx) := Allocate(r.names);
      NameRun(n, r.reserved, r.given + [idx], if |r.names.reserved| > 0 then r.served + [idx] else r.served)
  }

  function NameCalls(calls: seq<NameCall>, r: NameRun): NameRun {
    if |calls| == 0 then r else NameCalls(calls[1..], NameStep(calls[0], r))
  }

  ghost predicate NameRunOk(r: NameRun) {
    NamesOk(r.names) && r.reserved == r.served + r.names.reserved
    && (forall i :: 0 <= i < |r.given| ==> Used(r.names, r.given[i]))
    && (forall i, j :: 0 <= i < j < |r.given| ==> r.given[i] != r.given[j])
  }

  lemma NameStepOk(call: NameCall, r: NameRun)
    requires NameRunOk(r)
    ensures NameRunOk(NameStep(call, r))
  {
    hide NamesOk, Used;
    var r' := NameStep(call, r);
    NamesFresh(r.names);
    if call.AllocateCall? && |r.names.reserved| > 0 {
      assert r.names.reserved == [r.names.reserved[0]] + r.names.reserved[1..];
    }
    forall i | 0 <= i < |r'.given|
      ensures Used(r'.names, r'.given[i])
    {
      assert i < |r.given| ==> Used(r.names, r.given[i]);
    }
    forall i, j | 0 <= i < j < |r'.given|
      ensures r'.given[i] != r'.given[j]
    {
      assert Used(r.names, r.given[i]);
    }
  }

  lemma {:induction false} NameCallsOk(calls: seq<NameCall>, r: NameRun)
    requires NameRunOk(r)
    ensures NameRunOk(NameCalls(calls, r))
  {
    hide NameStep, NameRunOk;
    if |calls| > 0 {
      NameStepOk(calls[0], r);
      NameCallsOk(calls[1..], NameStep(calls[0], r));
    }
  }

  /** Over any list of reservations and allocations no index is allocated twice, and the reserved
      indices are allocated in the order of their reservation, the rest still waiting. */
  lemma NamesNeverRepeat(calls: seq<NameCall>)
    ensures var r := NameCalls(calls, NameRun(Names(0, []), [], [], []));
            (forall i, j :: 0 <= i < j < |r.given| ==> r.given[i] != r.given[j])
            && r.reserved == r.served + r.names.reserved
  {
    hide NameCalls;
    NameCallsOk(calls, NameRun(Names(0, []), [], [], []));
  }

  ghost predicate AtomNamed(a: Atom, s: Sym) {
    match a
    case RegAtom(r, e) => e == InitReg(RegOld(r)) && r in s.regs
    case MemAtom(c) =>
      c.value.InitMem? && c.value.name.OldMem? && c.value.name.width == c.width
      && Used(s.names, c.value.name.index)
  }

  function AtomValue(a: Atom): Expr {
    match a
    case RegAtom(_, e) => e
    case MemAtom(c) => c.value
  }

  ghost predicate NameInv(s: Sym) {
    NamesOk(s.names)
    && (forall i :: 0 <= i < |s.pre| ==> AtomNamed(s.pre[i], s))
    && (forall i, j :: 0 <= i < j < |s.pre| ==> AtomValue(s.pre[i]) != AtomValue(s.pre[j]))
  }

  predicate BoundOfWidth(b: (Name, nat)) {
    b.0.OldMem? && b.1 == 8 * Len(b.0.width)
  }

  ghost predicate BoundInv(loadVars: seq<(Name, nat)>) {
    forall i :: 0 <= i < |loadVars| ==> BoundOfWidth(loadVars[i])
  }

  ghost predicate Wf(s: Sym) {
    (s.errors == [] ==> SpanInv(s.spans, s.mem))
    && NameInv(s) && BoundInv(s.loadVars) && BytesShaped(s.mem) && AtomsMatch(s.pre, s.mem)
  }

  // ----- atoms and cells -----

  /** One memory atom per cell, with the same address and width, in the same order. */
  ghost predicate AtomsMatch(pre: seq<Atom>, mem: seq<MemCell>) {
    KeysMatch(MemCells(pre), mem)
  }

  lemma AtomsMatchReg(pre: seq<Atom>, mem: seq<MemCell>, r: Reg, e: Expr)
    requires AtomsMatch(pre, mem)
    ensures AtomsMatch(pre + [RegAtom(r, e)], mem)
  {
    hide MemCells;
    MemCellsAppend(pre, RegAtom(r, e));
    assert MemCells(pre + [RegAtom(r, e)]) == MemCells(pre);
  }

  lemma AtomsMatchCell(pre: seq<Atom>, mem: seq<MemCell>, cell: MemCell)
    requires AtomsMatch(pre, mem)
    ensures AtomsMatch(pre + [MemAtom(cell)], mem + [cell])
  {
    hide MemCells;
    MemCellsAppend(pre, MemAtom(cell));
  }

  lemma AtomsMatchValue(pre: seq<Atom>, mem: seq<MemCell>, i: nat, e: Expr)
    requires AtomsMatch(pre, mem) && i < |mem|
    ensures AtomsMatch(pre, mem[i := mem[i].(value := e)])
  {
    hide MemCells;
  }

  // ----- registers -----

  lemma {:induction false} RegWf(s: Sym, r: Reg, e: Expr)
    requires Wf(s)
    ensures Wf(ReadReg(s, r).0) && Wf(WriteReg(s, r, e))
  {
    hide SpanInv, BoundInv, BytesShaped, NamesOk, AtomsMatch;
    var s' := ReadReg(s, r).0;
    var s'' := WriteReg(s, r, e);
    AtomsMatchReg(s.pre, s.mem, r, InitReg(RegOld(r)));
    forall i | 0 <= i < |s'.pre|
      ensures AtomNamed(s'.pre[i], s') && AtomNamed(s''.pre[i], s'')
    {
      if i < |s.pre| {
        assert AtomNamed(s.pre[i], s) && s'.pre[i] == s.pre[i];
      }
    }
    forall i, j | 0 <= i < j < |s'.pre|
      ensures AtomValue(s'.pre[i]) != AtomValue(s'.pre[j])
    {
      assert AtomNamed(s.pre[i], s) && s'.pre[i] == s.pre[i];
      if j < |s.pre| {
        assert s'.pre[j] == s.pre[j];
      }
    }
  }

  // ----- new cells -----

  /** A fresh cell: its name is allocated, its atom and cell are appended. */
  lemma FreshNameInv(s: Sym, s': Sym, cell: MemCell)
    requires NameInv(s)
    requires s'.names == Allocate(s.names).0 && s'.pre == s.pre + [MemAtom(cell)] && s'.regs == s.regs
    requires cell.value == InitMem(OldMem(cell.width, Allocate(s.names).1))
    ensures NameInv(s')
  {
    hide NamesOk, Used, Allocate;
    NamesFresh(s.names);
    forall i | 0 <= i < |s'.pre|
      ensures AtomNamed(s'.pre[i], s')
    {
      if i < |s.pre| {
        assert AtomNamed(s.pre[i], s) && s'.pre[i] == s.pre[i];
      }
    }
    forall i, j | 0 <= i < j < |s'.pre|
      ensures AtomValue(s'.pre[i]) != AtomValue(s'.pre[j])
    {
      assert AtomNamed(s.pre[i], s) && s'.pre[i] == s.pre[i];
      if j < |s.pre| {
        assert s'.pre[j] == s.pre[j];
      }
    }
  }

  /** A footprint accepted under a new key is apart from all recorded ones. */
  lemma NewSpan(spans: seq<Span>, mem: seq<MemCell>, cell: MemCell, key: SpanKey, span: Span)
    requires SpanInv(spans, mem) && cell.delta < 8
    requires span == Span(CellCanon(cell).root, CellCanon(cell).disp, WrapI(CellCanon(cell).disp + Len(cell.width)), key)
    requires SpanFor(span, cell)
    requires forall i :: 0 <= i < |spans| ==> spans[i].key != key
    requires FindConflict(spans, span.root, span.lo, span.hi, key).None?
    ensures SpanInv(spans + [span], mem + [cell])
  {
    hide CanonAddr, WrapI, FindConflict, SpanFor, CellCanon;
    var spans', mem' := spans + [span], mem + [cell];
    forall i | 0 <= i < |mem'|
      ensures SpanFor(spans'[i], mem'[i]) && mem'[i].delta < 8
    {
      if i < |mem| {
        assert SpanFor(spans[i], mem[i]);
      }
    }
    forall i, j | 0 <= i < j < |spans'|
      ensures Apart(spans'[i], spans'[j])
    {
      if j < |spans| {
        assert Apart(spans[i], spans[j]);
      } else {
        assert !Conflicts(spans[i], span.root, span.lo, span.hi, key);
      }
    }
  }

  lemma WrapIId(x: i64)
    ensures WrapI(x) == x
  {
  }

  lemma FreshCellWf(s: Sym, base: Expr, off: Off, w: Width)
    requires Wf(s) && Lookup(s.mem, base, off, w).Missing?
    ensures Wf(FreshCell(s, base, off, w).0)
  {
    hide NamesOk, CanonAddr, WrapI, FindConflict, Allocate, Used, IsExact, FindCanon, FindExact, AtomsMatch;
    var s' := FreshCell(s, base, off, w).0;
    var (names, idx) := Allocate(s.names);
    var cell := MemCell(base, off, w, InitMem(OldMem(w, idx)), 0);
    AtomsMatchCell(s.pre, s.mem, cell);
    FreshNameInv(s, s', cell);
    if s'.errors == [] {
      WrapIId(off);
      var c := CanonAddr(base, off);
      var key := CellKey(base, off, w);
      forall i | 0 <= i < |s.spans|
        ensures s.spans[i].key != key
      {
        assert SpanFor(s.spans[i], s.mem[i]);
        NotExact(s.mem, base, off, w, i);
      }
      NewSpan(s.spans, s.mem, cell, key, Span(c.root, c.disp, WrapI(c.disp + Len(w)), key));
    }
  }

  lemma NotExact(mem: seq<MemCell>, base: Expr, off: Off, w: Width, i: nat)
    requires Lookup(mem, base, off, w).Missing? && i < |mem|
    ensures !IsExact(mem[i], base, off, w)
    ensures !(mem[i].base == base && mem[i].off == off && mem[i].delta == 0 && mem[i].width == w)
  {
    hide CanonAddr, FindCanon;
  }

  lemma HotSlotWf(s: Sym, base: Expr, off: Off, k: nat)
    requires Wf(s) && k < 8
    ensures var (s', i) := HotSlot(s, base, off, k); Wf(s') && s'.mem[i].width.Byte?
  {
    hide NamesOk, CanonAddr, WrapI, FindConflict, Allocate, Used, FindByte, SpanInv, AtomsMatch;
    var c := CanonAddr(base, off);
    var found := FindByte(s.mem, c.root, c.disp + k);
    var s' := HotSlot(s, base, off, k).0;
    if found.Some? {
      assert ByteShaped(s.mem[found.value].value);
      assert BoundInv(s'.loadVars);
    } else {
      FreshSlotWf(s, base, off, k);
    }
  }

  lemma FreshSlotWf(s: Sym, base: Expr, off: Off, k: nat)
    requires Wf(s) && k < 8
    requires FindByte(s.mem, CanonAddr(base, off).root, CanonAddr(base, off).disp + k).None?
    ensures var (s', i) := HotSlot(s, base, off, k); Wf(s') && s'.mem[i].width.Byte?
  {
    hide NamesOk, CanonAddr, WrapI, FindConflict, Allocate, Used, FindByte, AtomsMatch;
    var s' := HotSlot(s, base, off, k).0;
    var (names, idx) := Allocate(s.names);
    var cell := MemCell(base, off, Byte, InitMem(OldMem(Byte, idx)), k);
    AtomsMatchCell(s.pre, s.mem, cell);
    FreshNameInv(s, s', cell);
    if s'.errors == [] {
      WrapIId(off + k);
      var c := CanonAddr(base, off + k);
      var key := HotKey(base, off, k);
      forall i | 0 <= i < |s.spans|
        ensures s.spans[i].key != key
      {
        assert SpanFor(s.spans[i], s.mem[i]);
        assert !IsByteAt(s.mem[i], CanonAddr(base, off).root, CanonAddr(base, off).disp + k);
      }
      NewSpan(s.spans, s.mem, cell, key, Span(c.root, c.disp, WrapI(c.disp + 1), key));
    }
  }

  lemma SetValueWf(s: Sym, i: nat, e: Expr)
    requires Wf(s) && i < |s.mem| && (s.mem[i].width.Byte? ==> ByteShaped(e))
    ensures Wf(SetValue(s, i, e))
  {
    hide NamesOk, CanonAddr, WrapI, Used, ByteShaped, AtomsMatch;
    var s' := SetValue(s, i, e);
    AtomsMatchValue(s.pre, s.mem, i, e);
    if s.errors == [] {
      forall j | 0 <= j < |s'.mem|
        ensures SpanFor(s'.spans[j], s'.mem[j])
      {
        assert SpanFor(s.spans[j], s.mem[j]);
      }
    }
    forall j | 0 <= j < |s'.pre|
      ensures AtomNamed(s'.pre[j], s')
    {
      assert AtomNamed(s.pre[j], s);
    }
  }

  /** `Wf` looks only at these parts of the state. */
  lemma WfSame(s: Sym, s': Sym)
    requires Wf(s)
    requires s'.regs == s.regs && s'.pre == s.pre && s'.mem == s.mem && s'.names == s.names
    requires s'.loadVars == s.loadVars && s'.spans == s.spans && s.errors <= s'.errors
    ensures Wf(s')
  {
    hide NamesOk, SpanInv, BoundInv, BytesShaped, Used, AtomsMatch;
    forall i | 0 <= i < |s'.pre|
      ensures AtomNamed(s'.pre[i], s')
    {
      assert AtomNamed(s.pre[i], s);
    }
  }

  // ----- loads and stores -----

  lemma {:induction false} HotLoadSlotsWf(s: Sym, base: Expr, off: Off, k: nat)
    requires Wf(s) && k <= 8
    ensures Wf(HotLoadSlots(s, base, off, k).0)
    decreases 8 - k
  {
    hide Wf, HotSlot;
    if k < 8 {
      HotSlotWf(s, base, off, k);
      HotLoadSlotsWf(HotSlot(s, base, off, k).0, base, off, k + 1);
    }
  }

  lemma {:induction false} HotStoreSlotsWf(s: Sym, base: Expr, off: Off, imm: i64, k: nat)
    requires Wf(s) && k <= 4
    ensures Wf(HotStoreSlots(s, base, off, imm, k))
    decreases 4 - k
  {
    hide Wf, HotSlot, SetValue, ByteOf, WrapU;
    if k < 4 {
      var (s1, i) := HotSlot(s, base, off, k);
      var b := Const(ByteOf(WrapU(imm), k));
      HotSlotWf(s, base, off, k);
      SetValueWf(s1, i, b);
      HotStoreSlotsWf(SetValue(s1, i, b), base, off, imm, k + 1);
    }
  }

  lemma LoadCellWf(s: Sym, base: Expr, off: Off, w: Width)
    requires Wf(s)
    ensures Wf(LoadCell(s, base, off, w).0)
  {
    hide Wf, Lookup, FreshCell;
    if Lookup(s.mem, base, off, w).Missing? {
      FreshCellWf(s, base, off, w);
    } else {
      WfSame(s, LoadCell(s, base, off, w).0);
    }
  }

  lemma ReadMemAtWf(s: Sym, base: Expr, off: Off, w: Width)
    requires Wf(s)
    ensures Wf(ReadMemAt(s, base, off, w).0)
  {
    hide Wf, LoadCell, RequestDemotion, PlanSplit, HotCovers, CanonAddr, HotLoadSlots;
    if w.Byte? {
      LoadCellWf(s, base, off, w);
    } else {
      var a := CanonAddr(base, off);
      PlansKeep(s, a.root, a.disp, w);
      var s1 := if w.Dword? then PlanSplit(s, a.root, a.disp) else s;
      WfSame(s, s1);
      if HotCovers(s1.hot, a.root, a.disp, a.disp + Len(w)) {
        HotLoadSlotsWf(s1, base, off, 0);
        WfSame(if w.Dword? then HotLoadSlots(s1, base, off, 0).0 else s1, ReadMemAt(s, base, off, w).0);
      } else {
        PlansKeep(s1, a.root, a.disp, w);
        WfSame(s1, RequestDemotion(s1, a.root, a.disp, w));
        LoadCellWf(RequestDemotion(s1, a.root, a.disp, w), base, off, w);
      }
    }
  }

  lemma MaterializedWf(s: Sym, base: Expr, off: Off, w: Width)
    requires Wf(s)
    ensures Wf(Materialized(s, base, off, w))
  {
    hide Wf, Lookup, ReadMemAt;
    if Lookup(s.mem, base, off, w).Missing? {
      ReadMemAtWf(s, base, off, w);
      WfSame(ReadMemAt(s, base, off, w).0, Materialized(s, base, off, w));
    }
  }

  lemma StoreIntoWf(s: Sym, base: Expr, off: Off, w: Width, e: Expr)
    requires Wf(s) && (w.Byte? ==> ByteShaped(e))
    ensures Wf(StoreInto(s, base, off, w, e))
  {
    hide Wf, Lookup, ByteShaped, SetValue;
    var f := Lookup(s.mem, base, off, w);
    if f.Hit? {
      LookupWidth(s.mem, base, off, w);
      SetValueWf(s, f.index, e);
      WfSame(SetValue(s, f.index, e), StoreInto(s, base, off, w, e));
    }
  }

  lemma StoreCellWf(s: Sym, base: Expr, off: Off, w: Width, e: Expr)
    requires Wf(s) && (w.Byte? ==> ByteShaped(e))
    ensures Wf(StoreCell(s, base, off, w, e))
  {
    hide Wf, Materialized, StoreInto, ByteShaped;
    MaterializedWf(s, base, off, w);
    StoreIntoWf(Materialized(s, base, off, w), base, off, w, e);
  }

  lemma LookupWidth(mem: seq<MemCell>, base: Expr, off: Off, w: Width)
    requires Lookup(mem, base, off, w).Hit?
    ensures mem[Lookup(mem, base, off, w).index].width == w
  {
    hide CanonAddr;
  }

  lemma StoreHotWf(s: Sym, base: Expr, off: Off, w: Width, e: Expr)
    requires Wf(s)
    ensures Wf(StoreHot(s, base, off, w, e))
  {
    hide Wf, HotStoreSlots;
    var s' := StoreHot(s, base, off, w, e);
    if w.Word? && e.StImm? && e.width.Word? {
      HotStoreSlotsWf(s, base, off, e.imm, 0);
      WfSame(HotStoreSlots(s, base, off, e.imm, 0), s');
    } else {
      WfSame(s, s');
    }
  }

  lemma StoreColdWf(s: Sym, a: Canon, base: Expr, off: Off, w: Width, e: Expr)
    requires Wf(s) && (w.Byte? ==> ByteShaped(e))
    ensures Wf(StoreCold(s, a, base, off, w, e))
  {
    hide Wf, StoreCell, RequestDemotion, HotIntersects, ByteShaped, PlanSplit;
    PlansKeep(s, a.root, a.disp, w);
    var s1 := RequestDemotion(s, a.root, a.disp, w);
    WfSame(s, s1);
    StoreCellWf(s1, base, off, w, e);
  }

  lemma WriteMemAtWf(s: Sym, base: Expr, off: Off, w: Width, e: Expr)
    requires Wf(s) && (w.Byte? ==> ByteShaped(e))
    ensures Wf(WriteMemAt(s, base, off, w, e))
  {
    hide Wf, StoreCell, StoreHot, StoreCold, HotCovers, CanonAddr, ByteShaped;
    StoreCellWf(s, base, off, w, e);
    StoreHotWf(s, base, off, w, e);
    StoreColdWf(s, CanonAddr(base, off), base, off, w, e);
  }

  // ----- instructions and paths -----

  lemma {:induction false} SavedWf(s: Sym, i: nat)
    requires Wf(s) && i <= 5
    ensures Wf(ReadSaved(s, i).0)
    decreases 5 - i
  {
    hide Wf, ReadReg;
    if i < 5 {
      RegWf(s, 6 + i, Const(0));
      SavedWf(ReadReg(s, 6 + i).0, i + 1);
    }
  }

  lemma {:induction false} RestoreWf(s: Sym, saved: seq<Expr>, i: nat)
    requires Wf(s) && |saved| == 5 && i <= 5
    ensures Wf(RestoreSym(s, saved, i))
    decreases 5 - i
  {
    hide Wf, WriteReg;
    if i < 5 {
      RegWf(s, 6 + i, saved[i]);
      RestoreWf(WriteReg(s, 6 + i, saved[i]), saved, i + 1);
    }
  }

  lemma OperandWf(s: Sym, rhs: Operand)
    requires Wf(s)
    ensures Wf(ReadOperand(s, rhs).0)
  {
    hide Wf, ReadReg;
    if rhs.RegOp? {
      RegWf(s, rhs.reg, Const(0));
    }
  }

  lemma StepWf(insn: Insn, st: State)
    requires Wf(st.s)
    ensures Wf(SymStep(insn, st).s)
  {
    hide Wf, ReadReg, WriteReg, ReadMemAt, WriteMemAt, ReadOperand, ReadSaved, RestoreSym, AluExpr, TextExpr, JumpHyp;
    match insn
    case Ldx(w, dst, src, off) =>
      var (s0, base) := ReadReg(st.s, src);
      RegWf(st.s, src, base);
      var (s1, raw) := ReadMemAt(s0, base, off, w);
      ReadMemAtWf(s0, base, off, w);
      RegWf(s1, dst, StoredReg(w, raw));
    case Stx(w, dst, off, src) =>
      var (s1, cur) := ReadReg(st.s, src);
      RegWf(st.s, src, cur);
      var (s2, base) := ReadReg(s1, dst);
      RegWf(s1, dst, base);
      WriteMemAtWf(s2, base, off, w, StoredReg(w, cur));
    case StoreImm(w, dst, off, imm) =>
      var (s1, base) := ReadReg(st.s, dst);
      RegWf(st.s, dst, base);
      WriteMemAtWf(s1, base, off, w, StoredImm(w, imm));
    case Mov(dst, rhs) =>
      OperandWf(st.s, rhs);
      RegWf(ReadOperand(st.s, rhs).0, dst, ReadOperand(st.s, rhs).1);
    case Alu(size, op, dst, rhs) =>
      var (s1, a) := ReadReg(st.s, dst);
      RegWf(st.s, dst, a);
      OperandWf(s1, rhs);
      var (s2, b) := ReadOperand(s1, rhs);
      RegWf(s2, dst, AluExpr(size, op, a, b, rhs));
    case Negate(size, dst) =>
      var (s1, a) := ReadReg(st.s, dst);
      RegWf(st.s, dst, a);
      RegWf(s1, dst, TextExpr(RawAlu(size, Neg), [a], size.Wide?));
    case Endian(dst, bytes, big) =>
      var (s1, a) := ReadReg(st.s, dst);
      RegWf(st.s, dst, a);
      RegWf(s1, dst, TextExpr(RawEndian(bytes, big), [a], true));
    case Jump(wide, cond, dst, rhs, taken) =>
      RegWf(st.s, dst, Const(0));
      OperandWf(ReadReg(st.s, dst).0, rhs);
    case Ja =>
    case CallLocal =>
      SavedWf(st.s, 0);
      var (s1, saved) := ReadSaved(st.s, 0);
      RegWf(s1, 10, Binary(NatAdd, saved[4], Const(0x1000)));
    case Return =>
      var n := |st.frames|;
      if n > 0 && |st.frames[n - 1]| == 5 {
        RestoreWf(st.s, st.frames[n - 1], 0);
      }
  }

  /** Every path keeps the footprint and name invariants. */
  lemma {:induction false} RunWf(prog: seq<Insn>, st: State)
    requires Wf(st.s)
    ensures Wf(SymRun(prog, st).s)
  {
    hide Wf, SymStep;
    if |prog| > 0 {
      StepWf(prog[0], st);
      RunWf(prog[1..], SymStep(prog[0], st));
    }
  }

  lemma StartWf(hot: seq<Region>, splits: map<(Root, int), int>)
    ensures Wf(Start(hot, splits).s)
  {
  }

  // ----- footprints of one root are concretely disjoint -----

  /** A displacement whose span does not run past the end of the signed range. */
  predicate Bounded(c: MemCell) {
    CellCanon(c).disp + Len(c.width) < TWO63
  }

  lemma CellOnRoot(c: MemCell, env: Assignment)
    requires c.delta < 8
    ensures Cong(CellAddr(c, env), RootValue(CellCanon(c).root, env) + CellCanon(c).disp)
  {
    hide WrapU, CanonAddr, Mean;
    WrapIId(c.off + c.delta);
    CanonSound(c.base, c.off + c.delta, env);
    WrapIsCong(Mean(c.base, env) + c.off + c.delta);
  }

  /** Two offsets of one root that name the same address are equal when both lie in the signed
      range. */
  lemma SameOffset(rv: u64, p: u64, q: u64, d: int, e: int, x: nat, y: nat, a: u64)
    requires Cong(p, rv + d) && Cong(q, rv + e)
    requires x == WrapU(a - p) && y == WrapU(a - q)
    requires -TWO63 <= d + x < TWO63 && -TWO63 <= e + y < TWO63
    ensures d + x == e + y
  {
    hide WrapU;
    FootAddress(a, p);
    FootAddress(a, q);
    WrapIsCong(p + x);
    WrapIsCong(q + y);
    CongAdd(p, rv + d, x, x);
    CongAdd(q, rv + e, y, y);
    CongClose(rv + d + x, rv + e + y);
  }

  lemma CongClose(a: int, b: int)
    requires Cong(a, b) && -TWO64 < a - b < TWO64
    ensures a == b
  {
    CongIffMultiple(a, b);
  }

  lemma SpansDisjoint(c: MemCell, d: MemCell, env: Assignment)
    requires c.delta < 8 && d.delta < 8
    requires Bounded(c) && Bounded(d) && CellCanon(c).root == CellCanon(d).root
    requires !(CellCanon(c).disp < CellCanon(d).disp + Len(d.width)
               && CellCanon(d).disp < CellCanon(c).disp + Len(c.width))
    ensures SeparateCells(c, d, env)
  {
    hide WrapU, CanonAddr, Mean, CellAddr, Cong;
    CellOnRoot(c, env);
    CellOnRoot(d, env);
    var p, q := CellAddr(c, env), CellAddr(d, env);
    var rv := RootValue(CellCanon(c).root, env);
    forall a: u64
      ensures !(InFoot(a, p, Len(c.width)) && InFoot(a, q, Len(d.width)))
    {
      if InFoot(a, p, Len(c.width)) && InFoot(a, q, Len(d.width)) {
        SameOffset(rv, p, q, CellCanon(c).disp, CellCanon(d).disp, WrapU(a - p), WrapU(a - q), a);
      }
    }
  }

  ghost predicate AcrossRoots(mem: seq<MemCell>, env: Assignment) {
    forall i, j :: 0 <= i < |mem| && 0 <= j < |mem| && i != j && CellCanon(mem[i]).root != CellCanon(mem[j]).root
      ==> SeparateCells(mem[i], mem[j], env)
  }

  lemma RecordedApart(spans: seq<Span>, mem: seq<MemCell>, i: nat, j: nat)
    requires SpanInv(spans, mem) && i < |mem| && j < |mem| && i != j
    requires Bounded(mem[i]) && Bounded(mem[j]) && CellCanon(mem[i]).root == CellCanon(mem[j]).root
    ensures !(CellCanon(mem[i]).disp < CellCanon(mem[j]).disp + Len(mem[j].width)
              && CellCanon(mem[j]).disp < CellCanon(mem[i]).disp + Len(mem[i].width))
  {
    hide CanonAddr, WrapI;
    assert SpanFor(spans[i], mem[i]) && SpanFor(spans[j], mem[j]);
    WrapIId(spans[i].lo + Len(mem[i].width));
    WrapIId(spans[j].lo + Len(mem[j].width));
    if i < j {
      assert Apart(spans[i], spans[j]);
    } else {
      assert Apart(spans[j], spans[i]);
    }
  }

  /** On every path without overlap errors, two cells on one root are concretely disjoint under
      every assignment, when neither runs past the end of the signed range. */
  lemma SameRootSeparated(prog: seq<Insn>, hot: seq<Region>, splits: map<(Root, int), int>, env: Assignment, i: nat, j: nat)
    requires SymRun(prog, Start(hot, splits)).s.errors == []
    requires var mem := SymRun(prog, Start(hot, splits)).s.mem;
             i < |mem| && j < |mem| && i != j && Bounded(mem[i]) && Bounded(mem[j])
             && CellCanon(mem[i]).root == CellCanon(mem[j]).root
    ensures var mem := SymRun(prog, Start(hot, splits)).s.mem; SeparateCells(mem[i], mem[j], env)
  {
    hide SymRun, Bounded, NameInv, CellCanon;
    StartWf(hot, splits);
    RunWf(prog, Start(hot, splits));
    var s := SymRun(prog, Start(hot, splits)).s;
    RecordedApart(s.spans, s.mem, i, j);
    SpansDisjoint(s.mem[i], s.mem[j], env);
  }

  /** The bytes of `[d, d + n)` and `[e, e + m)` are different words around the address space. */
  predicate ApartAround(d: int, n: nat, e: int, m: nat) {
    WrapU(e - d) >= n && WrapU(d - e) >= m
  }

  lemma WrapDifference(a: u64, b: u64)
    ensures WrapU(a - b) == if a >= b then a - b else a - b + TWO64
  {
  }

  lemma DisjointIffAround(p: u64, n: nat, q: u64, m: nat)
    requires 0 < n <= 8 && 0 < m <= 8
    ensures Disjoint(p, n, q, m) <==> ApartAround(p, n, q, m)
  {
    hide WrapU;
    WrapDifference(p, q);
    WrapDifference(q, p);
    if Disjoint(p, n, q, m) {
      WrapDifference(p, p);
      WrapDifference(q, q);
      assert !(InFoot(p, p, n) && InFoot(p, q, m));
      assert !(InFoot(q, p, n) && InFoot(q, q, m));
    } else {
      var a: u64 :| InFoot(a, p, n) && InFoot(a, q, m);
      WrapDifference(a, p);
      WrapDifference(a, q);
    }
  }

  /** Whether two cells on one root are disjoint is decided by their displacements, the same under
      every assignment. */
  lemma SameRootSeparateIff(c: MemCell, d: MemCell, env: Assignment)
    requires c.delta < 8 && d.delta < 8 && CellCanon(c).root == CellCanon(d).root
    ensures SeparateCells(c, d, env) <==> ApartAround(CellCanon(c).disp, Len(c.width), CellCanon(d).disp, Len(d.width))
  {
    hide CanonAddr, Mean, CellAddr, Cong, Disjoint, WrapU, RootValue;
    CellOnRoot(c, env);
    CellOnRoot(d, env);
    var rv := RootValue(CellCanon(c).root, env);
    var p, q, x, y := CellAddr(c, env), CellAddr(d, env), CellCanon(c).disp, CellCanon(d).disp;
    DisjointIffAround(p, Len(c.width), q, Len(d.width));
    SameDistance(p, q, rv, x, y);
    SameDistance(q, p, rv, y, x);
  }

  lemma SameDistance(p: int, q: int, rv: int, x: int, y: int)
    requires Cong(p, rv + x) && Cong(q, rv + y)
    ensures WrapU(q - p) == WrapU(y - x)
  {
  }

  const INPUT: Expr := InitReg(RegOld(1))
  const ZERO: Assignment := (n: Name) => 0
}
