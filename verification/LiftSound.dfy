/** The symbolic state against a concrete machine: a register file and a byte memory over
    64-bit addresses. Every operation keeps the two in step. */
module LiftSound {
  import opened Words
  import opened Alu
  import opened SymExpr
  import opened SymModel

  // ----- concrete memory -----

  type Memory = u64 -> u8

  datatype Conc = Conc(regs: Reg -> u64, mem: Memory)

  /** `a` is one of the `n` bytes from `start`, addresses wrapping at 2^64. */
  predicate InFoot(a: u64, start: u64, n: nat) {
    WrapU(a - start) < n
  }

  function Write(m: Memory, start: u64, n: nat, v: u64): Memory {
    (a: u64) => if InFoot(a, start, n) then ByteOf(v, WrapU(a - start)) else m(a)
  }

  /** The byte `i` places after `start`. */
  function At(m: Memory, start: u64, i: nat): u8 {
    m(WrapU(start + i))
  }

  function BytesAt(m: Memory, start: u64, n: nat): (bs: seq<u8>)
    ensures |bs| == n
  {
    seq<u8>(n, i requires i >= 0 => At(m, start, i))
  }

  function Read(m: Memory, start: u64, n: nat): nat {
    LeValue(BytesAt(m, start, n))
  }

  /** The `n` bytes from `start` are the low bytes of `v`. */
  ghost predicate Holds(m: Memory, start: u64, n: nat, v: u64) {
    forall i :: 0 <= i < n ==> At(m, start, i) == ByteOf(v, i)
  }

  ghost predicate Disjoint(p: u64, n: nat, q: u64, k: nat) {
    forall a: u64 :: !(InFoot(a, p, n) && InFoot(a, q, k))
  }

  lemma FootOffset(start: u64, i: nat)
    requires i < TWO64
    ensures WrapU(WrapU(start + i) - start) == i
  {
    WrapIsCong(start + i);
    CongAdd(WrapU(start + i), start + i, start, start);
    WrapId(i);
  }

  lemma FootAddress(a: u64, start: u64)
    ensures a == WrapU(start + WrapU(a - start))
  {
    WrapIsCong(a - start);
    CongAdd(start, start, WrapU(a - start), a - start);
    WrapId(a);
  }

  lemma WriteHolds(m: Memory, start: u64, n: nat, v: u64)
    requires n <= 8
    ensures Holds(Write(m, start, n, v), start, n, v)
  {
    forall i | 0 <= i < n
      ensures At(Write(m, start, n, v), start, i) == ByteOf(v, i)
    {
      var a := WrapU(start + i);
      FootOffset(start, i);
      assert InFoot(a, start, n) && WrapU(a - start) == i;
    }
  }

  lemma WriteElsewhere(m: Memory, p: u64, n: nat, v: u64, q: u64, k: nat, w: u64)
    requires k <= 8 && Disjoint(p, n, q, k) && Holds(m, q, k, w)
    ensures Holds(Write(m, p, n, v), q, k, w)
  {
    forall i | 0 <= i < k
      ensures At(Write(m, p, n, v), q, i) == ByteOf(w, i)
    {
      FootOffset(q, i);
      assert InFoot(WrapU(q + i), q, k);
    }
  }

  /** What a load returns is the held value truncated to the access width. */
  lemma ReadHolds(m: Memory, start: u64, n: nat, v: u64)
    requires Holds(m, start, n, v)
    ensures Read(m, start, n) == v % Pow256(n)
  {
    assert BytesAt(m, start, n) == LeBytes(v, n);
    LeRoundTrip(v, n);
  }

  ghost predicate SameBytes(v: nat, x: nat, n: nat) {
    forall i :: 0 <= i < n ==> ByteOf(v, i) == ByteOf(x, i)
  }

  lemma TruncationKeepsBytes(x: nat, n: nat)
    ensures SameBytes(x % Pow256(n), x, n)
  {
    LeRoundTrip(x, n);
    forall i | 0 <= i < n
      ensures ByteOf(x % Pow256(n), i) == ByteOf(x, i)
    {
      ByteOfLeValue(LeBytes(x, n), i);
    }
  }

  // ----- atoms -----

  function CellAddr(c: MemCell, env: Assignment): u64 {
    WrapU(Mean(c.base, env) + c.off + c.delta)
  }

  function MemCells(pre: seq<Atom>): seq<MemCell> {
    if |pre| == 0 then []
    else
      MemCells(pre[..|pre| - 1])
      + (if pre[|pre| - 1].MemAtom? then [pre[|pre| - 1].cell] else [])
  }

  ghost predicate AtomHolds(a: Atom, env: Assignment, c: Conc) {
    match a
    case RegAtom(r, e) => Agrees(e, env, c.regs(r))
    case MemAtom(cell) => CellAgrees(cell, env, c.mem)
  }

  ghost predicate SeparateCells(c: MemCell, d: MemCell, env: Assignment) {
    Disjoint(CellAddr(c, env), Len(c.width), CellAddr(d, env), Len(d.width))
  }

  ghost predicate Separated(cells: seq<MemCell>, env: Assignment) {
    forall i, j :: 0 <= i < |cells| && 0 <= j < |cells| && i != j ==> SeparateCells(cells[i], cells[j], env)
  }

  /** The separating conjunction of the atoms. */
  ghost predicate PreHolds(pre: seq<Atom>, env: Assignment, c: Conc) {
    (forall i :: 0 <= i < |pre| ==> AtomHolds(pre[i], env, c)) && Separated(MemCells(pre), env)
  }

  ghost predicate BoundsHold(loadVars: seq<(Name, nat)>, env: Assignment) {
    forall i :: 0 <= i < |loadVars| ==> env(loadVars[i].0) < Pow2(loadVars[i].1)
  }

  ghost predicate Agrees(e: Expr, env: Assignment, v: u64) {
    Mean(e, env) == v
  }

  /** The cell's bytes in memory are the low bytes of its value. */
  ghost predicate CellAgrees(c: MemCell, env: Assignment, m: Memory) {
    Holds(m, CellAddr(c, env), Len(c.width), Mean(c.value, env))
  }

  // ----- invariants -----

  ghost predicate KeysMatch(cells: seq<MemCell>, mem: seq<MemCell>) {
    |cells| == |mem| && forall i :: 0 <= i < |mem| ==> SameKey(cells[i], mem[i])
  }

  /** The values byte cells ever hold: a byte variable, a reduction modulo 256, a byte. */
  predicate ByteShaped(e: Expr) {
    (e.InitMem? && e.name.OldMem? && e.name.width.Byte?)
    || (e.Unary? && e.uop == ModBy(256))
    || (e.Const? && 0 <= e.k < 256)
  }

  predicate ByteBound(b: (Name, nat)) {
    b.0.OldMem? && b.0.width.Byte? ==> b.1 == 8
  }

  ghost predicate RegsListed(pre: seq<Atom>, regs: map<Reg, Expr>) {
    forall i :: 0 <= i < |pre| && pre[i].RegAtom? ==> pre[i].reg in regs
  }

  ghost predicate BytesShaped(mem: seq<MemCell>) {
    forall i :: 0 <= i < |mem| && mem[i].width.Byte? ==> ByteShaped(mem[i].value)
  }

  ghost predicate BoundsShaped(loadVars: seq<(Name, nat)>) {
    forall i :: 0 <= i < |loadVars| ==> ByteBound(loadVars[i])
  }

  ghost predicate Inv(s: Sym) {
    KeysMatch(MemCells(s.pre), s.mem) && RegsListed(s.pre, s.regs)
    && BytesShaped(s.mem) && BoundsShaped(s.loadVars)
  }

  ghost predicate Outside(a: u64, c: MemCell, env: Assignment) {
    !InFoot(a, CellAddr(c, env), Len(c.width))
  }

  ghost predicate Untouched(a: u64, mem: seq<MemCell>, env: Assignment) {
    forall i :: 0 <= i < |mem| ==> Outside(a, mem[i], env)
  }

  ghost predicate CellsAgree(mem: seq<MemCell>, env: Assignment, m: Memory) {
    forall i :: 0 <= i < |mem| ==> CellAgrees(mem[i], env, m)
  }

  ghost predicate Framed(mem: seq<MemCell>, env: Assignment, m0: Memory, m: Memory) {
    forall a: u64 :: Untouched(a, mem, env) ==> m(a) == m0(a)
  }

  /** Cells agree with memory, and memory outside them is as it was. */
  ghost predicate MemSim(mem: seq<MemCell>, env: Assignment, m0: Memory, m: Memory) {
    CellsAgree(mem, env, m) && Framed(mem, env, m0, m)
  }

  ghost predicate RegSim(regs: map<Reg, Expr>, env: Assignment, r0: Reg -> u64, r: Reg -> u64) {
    forall q: Reg :: if q in regs then Agrees(regs[q], env, r(q)) else r(q) == r0(q)
  }

  ghost predicate Sim(s: Sym, env: Assignment, c0: Conc, c: Conc) {
    RegSim(s.regs, env, c0.regs, c.regs) && MemSim(s.mem, env, c0.mem, c.mem)
  }

  ghost predicate Hyp(s: Sym, env: Assignment, c0: Conc) {
    PreHolds(s.pre, env, c0) && BoundsHold(s.loadVars, env)
  }

  /** The parts of the state that only ever grow. */
  ghost predicate Grows(s: Sym, s': Sym) {
    s.pre <= s'.pre && s.loadVars <= s'.loadVars && s.newHot <= s'.newHot && s.errors <= s'.errors
    && s.newSplits <= s'.newSplits && s'.hot == s.hot
  }

  /** No demotion request, no split request and no overlap so far. */
  predicate Clean(s: Sym) {
    RetryPlanOf(s) == Ready && s.errors == []
  }

  // ----- how the parts of the state depend on each other -----

  lemma {:induction false} MemCellsPrefix(pre: seq<Atom>, pre': seq<Atom>)
    requires pre <= pre'
    ensures MemCells(pre) <= MemCells(pre')
  {
    if |pre| < |pre'| {
      MemCellsPrefix(pre, pre'[..|pre'| - 1]);
    } else {
      assert pre == pre';
    }
  }

  lemma PreHoldsPrefix(pre: seq<Atom>, pre': seq<Atom>, env: Assignment, c0: Conc)
    requires pre <= pre' && PreHolds(pre', env, c0)
    ensures PreHolds(pre, env, c0)
  {
    MemCellsPrefix(pre, pre');
    var cells, cells' := MemCells(pre), MemCells(pre');
    forall i, j | 0 <= i < |cells| && 0 <= j < |cells| && i != j
      ensures SeparateCells(cells[i], cells[j], env)
    {
      assert SeparateCells(cells'[i], cells'[j], env);
    }
    forall i | 0 <= i < |pre|
      ensures AtomHolds(pre[i], env, c0)
    {
      assert AtomHolds(pre'[i], env, c0);
    }
  }

  lemma BoundsHoldPrefix(vars: seq<(Name, nat)>, vars': seq<(Name, nat)>, env: Assignment)
    requires vars <= vars' && BoundsHold(vars', env)
    ensures BoundsHold(vars, env)
  {
    forall i | 0 <= i < |vars|
      ensures env(vars[i].0) < Pow2(vars[i].1)
    {
      assert vars[i] == vars'[i];
    }
  }

  /** The hypotheses about a later state include those about an earlier one. */
  lemma HypMonotone(s: Sym, s': Sym, env: Assignment, c0: Conc)
    requires Grows(s, s') && Hyp(s', env, c0)
    ensures Hyp(s, env, c0)
  {
    PreHoldsPrefix(s.pre, s'.pre, env, c0);
    BoundsHoldPrefix(s.loadVars, s'.loadVars, env);
  }

  lemma MemCellsAppend(pre: seq<Atom>, a: Atom)
    ensures MemCells(pre + [a]) == MemCells(pre) + (if a.MemAtom? then [a.cell] else [])
  {
    assert (pre + [a])[..|pre|] == pre;
  }

  lemma MemSeparated(s: Sym, env: Assignment, c0: Conc)
    requires Inv(s) && Hyp(s, env, c0)
    ensures Separated(s.mem, env)
  {
    var cells := MemCells(s.pre);
    forall i, j | 0 <= i < |s.mem| && 0 <= j < |s.mem| && i != j
      ensures SeparateCells(s.mem[i], s.mem[j], env)
    {
      assert SeparateCells(cells[i], cells[j], env);
      assert SameKey(cells[i], s.mem[i]) && SameKey(cells[j], s.mem[j]);
    }
  }

  // ----- registers -----

  lemma ReadRegSim(s: Sym, r: Reg, env: Assignment, c0: Conc, c: Conc)
    requires Inv(s) && Sim(s, env, c0, c) && Hyp(ReadReg(s, r).0, env, c0)
    ensures var (s', e) := ReadReg(s, r);
            Inv(s') && Grows(s, s') && Sim(s', env, c0, c) && Agrees(e, env, c.regs(r))
  {
    hide MemSim, BytesShaped, BoundsShaped, Agrees, BoundsHold, KeysMatch, Separated, CellAgrees, Mean;
    if r !in s.regs {
      var s' := ReadReg(s, r).0;
      var a := RegAtom(r, InitReg(RegOld(r)));
      MemCellsAppend(s.pre, a);
      assert MemCells(s'.pre) == MemCells(s.pre);
      hide MemCells;
      assert s'.pre[|s.pre|] == a;
      assert AtomHolds(a, env, c0);
      forall i | 0 <= i < |s'.pre| && s'.pre[i].RegAtom?
        ensures s'.pre[i].reg in s'.regs
      {
        assert i < |s.pre| ==> s'.pre[i] == s.pre[i];
      }
    }
  }

  function SetReg(regs: Reg -> u64, r: Reg, v: u64): Reg -> u64 {
    (q: Reg) => if q == r then v else regs(q)
  }

  lemma WriteRegSim(s: Sym, r: Reg, e: Expr, v: u64, env: Assignment, c0: Conc, c: Conc)
    requires Inv(s) && Sim(s, env, c0, c) && Hyp(WriteReg(s, r, e), env, c0)
    requires Agrees(e, env, v)
    ensures var s' := WriteReg(s, r, e);
            Inv(s') && Grows(s, s') && Sim(s', env, c0, c.(regs := SetReg(c.regs, r, v)))
  {
    hide MemSim, BytesShaped, BoundsShaped, Agrees, RegSim, MemCells, PreHolds, BoundsHold, KeysMatch;
    ReadRegSim(s, r, env, c0, c);
    SetRegSim(ReadReg(s, r).0.regs, r, e, v, env, c0.regs, c.regs);
  }

  lemma SetRegSim(regs: map<Reg, Expr>, r: Reg, e: Expr, v: u64, env: Assignment, r0: Reg -> u64, rs: Reg -> u64)
    requires RegSim(regs, env, r0, rs) && Agrees(e, env, v)
    ensures RegSim(regs[r := e], env, r0, SetReg(rs, r, v))
  {
  }

  // ----- cells -----

  /** A new cell's footprint is untouched memory, so it still has its initial contents. */
  lemma NewCellAgrees(mem: seq<MemCell>, cell: MemCell, env: Assignment, m0: Memory, m: Memory)
    requires MemSim(mem, env, m0, m) && CellAgrees(cell, env, m0)
    requires forall j :: 0 <= j < |mem| ==> SeparateCells(mem[j], cell, env)
    ensures CellAgrees(cell, env, m)
  {
    hide WrapU, ByteOf, Mean;
    var start := CellAddr(cell, env);
    forall i | 0 <= i < Len(cell.width)
      ensures At(m, start, i) == At(m0, start, i)
    {
      var a := WrapU(start + i);
      FootOffset(start, i);
      assert InFoot(a, start, Len(cell.width));
      forall j | 0 <= j < |mem|
        ensures Outside(a, mem[j], env)
      {
        assert SeparateCells(mem[j], cell, env);
      }
    }
  }

  lemma AddCellSim(s: Sym, cell: MemCell, env: Assignment, c0: Conc, c: Conc)
    requires Inv(s) && Sim(s, env, c0, c) && Hyp(AddCell(s, cell), env, c0)
    requires cell.width.Byte? ==> ByteShaped(cell.value)
    ensures Inv(AddCell(s, cell)) && Sim(AddCell(s, cell), env, c0, c)
  {
    hide CellAgrees, RegSim, ByteShaped, Outside;
    var s' := AddCell(s, cell);
    AddCellInv(s, cell);
    MemSeparated(s', env, c0);
    assert s'.pre[|s.pre|] == MemAtom(cell);
    assert AtomHolds(MemAtom(cell), env, c0);
    forall j | 0 <= j < |s.mem|
      ensures SeparateCells(s.mem[j], cell, env)
    {
      assert SeparateCells(s'.mem[j], s'.mem[|s.mem|], env);
    }
    NewCellAgrees(s.mem, cell, env, c0.mem, c.mem);
    forall a: u64 | Untouched(a, s'.mem, env)
      ensures c.mem(a) == c0.mem(a)
    {
      forall i | 0 <= i < |s.mem|
        ensures Outside(a, s.mem[i], env)
      {
        assert Outside(a, s'.mem[i], env);
      }
    }
  }

  lemma AddCellInv(s: Sym, cell: MemCell)
    requires Inv(s)
    requires cell.width.Byte? ==> ByteShaped(cell.value)
    ensures Inv(AddCell(s, cell))
  {
    hide ByteShaped;
    var s' := AddCell(s, cell);
    MemCellsAppend(s.pre, MemAtom(cell));
    forall i | 0 <= i < |s'.pre| && s'.pre[i].RegAtom?
      ensures s'.pre[i].reg in s'.regs
    {
      assert i < |s.pre| && s'.pre[i] == s.pre[i];
    }
  }

  /** A cell with the same root and displacement `k` further on lies `k` bytes further on. */
  lemma CanonSameAddress(base: Expr, off: Off, k: nat, cell: MemCell, env: Assignment)
    requires CellRoot(cell) == CanonAddr(base, off).root
    requires CellDisp(cell) == CanonAddr(base, off).disp + k
    ensures CellAddr(cell, env) == WrapU(Mean(base, env) + off + k)
  {
    hide WrapU, WrapI, CanonGo;
    var a: int, a': int := Mean(base, env) + off, Mean(cell.base, env) + cell.off;
    CanonCongruence(cell.base, cell.off, base, off, env);
    CongAdd(a' - a, k - cell.delta, a + cell.delta, a + cell.delta);
  }

  lemma LookupSound(mem: seq<MemCell>, base: Expr, off: Off, w: Width, env: Assignment)
    requires Lookup(mem, base, off, w).Hit?
    ensures var cell := mem[Lookup(mem, base, off, w).index];
            cell.width == w && CellAddr(cell, env) == WrapU(Mean(base, env) + off)
  {
    hide WrapU, CanonAddr, FindExact, FindCanon;
    var cell := mem[Lookup(mem, base, off, w).index];
    if FindExact(mem, base, off, w).None? {
      hide CellAddr, Mean;
      CanonSameAddress(base, off, 0, cell, env);
    }
  }

  /** A store through cell `i`: the cell gets the new value, every other cell keeps its own. */
  lemma SetCellSim(mem: seq<MemCell>, i: nat, e: Expr, x: u64, env: Assignment, m0: Memory, m: Memory)
    requires MemSim(mem, env, m0, m) && Separated(mem, env) && i < |mem|
    requires SameBytes(Mean(e, env), x, Len(mem[i].width))
    ensures MemSim(mem[i := mem[i].(value := e)], env, m0,
                   Write(m, CellAddr(mem[i], env), Len(mem[i].width), x))
  {
    hide Write, Outside, Holds;
    var mem' := mem[i := mem[i].(value := e)];
    assert CellAgrees(mem[i], env, m);
    SetCellHolds(mem[i], e, x, env, m);
    var m' := Write(m, CellAddr(mem[i], env), Len(mem[i].width), x);
    forall j | 0 <= j < |mem'| && j != i
      ensures CellAgrees(mem'[j], env, m')
    {
      assert SeparateCells(mem[i], mem[j], env) && CellAgrees(mem[j], env, m);
      OtherCellHolds(mem[i], mem[j], x, env, m);
    }
    forall a: u64 | Untouched(a, mem', env)
      ensures m'(a) == m0(a)
    {
      forall j | 0 <= j < |mem|
        ensures Outside(a, mem[j], env)
      {
        assert Outside(a, mem'[j], env);
        OutsideKey(a, mem'[j], mem[j], env);
      }
      OutsideWrite(a, mem[i], x, env, m);
    }
  }

  lemma OutsideKey(a: u64, c: MemCell, d: MemCell, env: Assignment)
    requires SameKey(c, d) && Outside(a, c, env)
    ensures Outside(a, d, env)
  {
  }

  lemma OutsideWrite(a: u64, c: MemCell, x: u64, env: Assignment, m: Memory)
    requires CellAgrees(c, env, m) && Outside(a, c, env)
    ensures Write(m, CellAddr(c, env), Len(c.width), x)(a) == m(a)
  {
  }

  lemma SetCellHolds(c: MemCell, e: Expr, x: u64, env: Assignment, m: Memory)
    requires CellAgrees(c, env, m)
    requires SameBytes(Mean(e, env), x, Len(c.width))
    ensures CellAgrees(c.(value := e), env, Write(m, CellAddr(c, env), Len(c.width), x))
  {
    hide Write, Mean, ByteOf, At;
    WriteHolds(m, CellAddr(c, env), Len(c.width), x);
  }

  lemma OtherCellHolds(c: MemCell, d: MemCell, x: u64, env: Assignment, m: Memory)
    requires CellAgrees(c, env, m) && CellAgrees(d, env, m) && SeparateCells(c, d, env)
    ensures CellAgrees(d, env, Write(m, CellAddr(c, env), Len(c.width), x))
  {
    WriteElsewhere(m, CellAddr(c, env), Len(c.width), x,
                   CellAddr(d, env), Len(d.width), Mean(d.value, env));
  }

  // ----- loads -----

  /** The low bytes of the expression's meaning are in memory at `start`. */
  ghost predicate Loaded(e: Expr, start: u64, n: nat, env: Assignment, m: Memory) {
    Holds(m, start, n, Mean(e, env))
  }

  lemma LookupLoaded(mem: seq<MemCell>, base: Expr, off: Off, w: Width, env: Assignment, m0: Memory, m: Memory)
    requires MemSim(mem, env, m0, m) && Lookup(mem, base, off, w).Hit?
    ensures var i := Lookup(mem, base, off, w).index;
            CellAddr(mem[i], env) == WrapU(Mean(base, env) + off) && mem[i].width == w
            && Loaded(mem[i].value, WrapU(Mean(base, env) + off), Len(w), env, m)
  {
    hide Lookup, Framed;
    var i := Lookup(mem, base, off, w).index;
    assert CellAgrees(mem[i], env, m);
    LookupSound(mem, base, off, w, env);
  }

  lemma NoteAccessKeeps(s: Sym, base: Expr, off: i64, len: nat, key: SpanKey)
    ensures var s' := NoteAccess(s, base, off, len, key);
            s' == s.(spans := s'.spans, errors := s'.errors) && s.errors <= s'.errors
  {
  }

  lemma BoundsShapedAppend(vars: seq<(Name, nat)>, more: seq<(Name, nat)>)
    requires BoundsShaped(vars) && BoundsShaped(more)
    ensures BoundsShaped(vars + more)
  {
  }

  lemma FreshCellSim(s: Sym, base: Expr, off: Off, w: Width, env: Assignment, c0: Conc, c: Conc)
    requires Inv(s) && Sim(s, env, c0, c) && Hyp(FreshCell(s, base, off, w).0, env, c0)
    ensures var (s', e) := FreshCell(s, base, off, w);
            Inv(s') && Grows(s, s') && Sim(s', env, c0, c)
            && Loaded(e, WrapU(Mean(base, env) + off), Len(w), env, c.mem)
  {
    hide MemSim, RegSim, NoteAccess, PreHolds, BoundsHold, MemCells, KeysMatch, RegsListed, BytesShaped, Mean, Allocate, WrapU, Holds;
    var (names, idx) := Allocate(s.names);
    var n := OldMem(w, idx);
    var s1 := s.(names := names, loadVars := s.loadVars + LoadBound(w, n));
    BoundsShapedAppend(s.loadVars, LoadBound(w, n));
    NoteAccessKeeps(s1, base, off, Len(w), CellKey(base, off, w));
    var s2 := NoteAccess(s1, base, off, Len(w), CellKey(base, off, w));
    var cell := MemCell(base, off, w, InitMem(n), 0);
    AddCellSim(s2, cell, env, c0, c);
    assert AddCell(s2, cell).mem[|s.mem|] == cell;
    ListedAgrees(AddCell(s2, cell).mem, |s.mem|, env, c0.mem, c.mem);
  }

  lemma ListedAgrees(mem: seq<MemCell>, i: nat, env: Assignment, m0: Memory, m: Memory)
    requires MemSim(mem, env, m0, m) && i < |mem|
    ensures CellAgrees(mem[i], env, m)
  {
    hide Framed, CellAgrees;
  }

  lemma LoadCellSim(s: Sym, base: Expr, off: Off, w: Width, env: Assignment, c0: Conc, c: Conc)
    requires Inv(s) && Sim(s, env, c0, c)
    requires Hyp(LoadCell(s, base, off, w).0, env, c0)
    ensures var (s', e) := LoadCell(s, base, off, w);
            Inv(s') && Grows(s, s') && Sim(s', env, c0, c)
            && Loaded(e, WrapU(Mean(base, env) + off), Len(w), env, c.mem)
  {
    hide Lookup, MemSim, RegSim, FreshCell, PreHolds, BoundsHold, MemCells, Loaded, BytesShaped;
    if Lookup(s.mem, base, off, w).Missing? {
      FreshCellSim(s, base, off, w, env, c0, c);
    } else {
      LookupLoaded(s.mem, base, off, w, env, c0.mem, c.mem);
    }
  }

  // ----- byte-granular loads -----

  lemma ByteValueSmall(e: Expr, loadVars: seq<(Name, nat)>, env: Assignment)
    requires ByteShaped(e) && BoundsShaped(loadVars) && BoundsHold(loadVars, env)
    requires e.InitMem? ==> HasBound(loadVars, e.name)
    ensures Mean(e, env) < 256
  {
    if e.InitMem? {
      var i :| 0 <= i < |loadVars| && loadVars[i].0 == e.name;
      assert ByteBound(loadVars[i]);
      Pow2Values();
    }
  }

  lemma WrapAddress(x: int, k: nat)
    ensures WrapU(WrapU(x) + k) == WrapU(x + k)
  {
    WrapIsCong(x);
    CongAdd(WrapU(x), x, k, k);
  }

  /** What a byte slot gives: the cell `k` bytes from the access, its value a byte. */
  ghost predicate SlotAt(s: Sym, i: nat, start: u64, k: nat, env: Assignment) {
    i < |s.mem| && s.mem[i].width.Byte?
    && CellAddr(s.mem[i], env) == WrapU(start + k)
    && Mean(s.mem[i].value, env) < 256
  }

  lemma FoundSlotSim(s: Sym, base: Expr, off: Off, k: nat, i: nat, env: Assignment, c0: Conc, c: Conc)
    requires k < 8 && Inv(s) && Sim(s, env, c0, c)
    requires FindByte(s.mem, CanonAddr(base, off).root, CanonAddr(base, off).disp + k) == Some(i)
    requires Hyp(HotSlot(s, base, off, k).0, env, c0)
    ensures var (s', i') := HotSlot(s, base, off, k);
            Inv(s') && Grows(s, s') && Sim(s', env, c0, c) && s'.mem == s.mem && i' == i
            && SlotAt(s', i, WrapU(Mean(base, env) + off), k, env)
  {
    hide MemCells, RegSim, MemSim, PreHolds, CanonAddr, WrapU, ByteShaped, ReuseSlot, BoundsShaped, CellRoot, CellDisp, Mean;
    var term := AddrTerm(base, off, k);
    FoundSlotAddress(s.mem, base, off, k, i, env, c0.mem, c.mem);
    ReuseSlotKeeps(s, i, term);
    ByteValueSmall(s.mem[i].value, ReuseSlot(s, i, term).loadVars, env);
  }

  lemma FoundSlotAddress(mem: seq<MemCell>, base: Expr, off: Off, k: nat, i: nat, env: Assignment, m0: Memory, m: Memory)
    requires MemSim(mem, env, m0, m)
    requires FindByte(mem, CanonAddr(base, off).root, CanonAddr(base, off).disp + k) == Some(i)
    ensures i < |mem| && mem[i].width.Byte?
    ensures CellAddr(mem[i], env) == WrapU(WrapU(Mean(base, env) + off) + k)
  {
    hide CanonAddr, WrapU, FindByte, Mean, MemSim, CellAddr;
    assert IsByteAt(mem[i], CanonAddr(base, off).root, CanonAddr(base, off).disp + k);
    ListedAgrees(mem, i, env, m0, m);
    CanonSameAddress(base, off, k, mem[i], env);
    WrapAddress(Mean(base, env) + off, k);
  }

  lemma ReuseSlotKeeps(s: Sym, i: nat, term: AddrTerm)
    requires i < |s.mem| && BoundsShaped(s.loadVars)
    requires s.mem[i].width.Byte? && ByteShaped(s.mem[i].value)
    ensures var s' := ReuseSlot(s, i, term);
            s' == s.(slotAliases := s'.slotAliases, loadVars := s'.loadVars)
            && s.loadVars <= s'.loadVars && BoundsShaped(s'.loadVars)
            && (s.mem[i].value.InitMem? ==> HasBound(s'.loadVars, s.mem[i].value.name))
  {
    var v := s.mem[i].value;
    var s' := ReuseSlot(s, i, term);
    if v.InitMem? && !HasBound(s.loadVars, v.name) {
      BoundsShapedAppend(s.loadVars, [(v.name, 8)]);
      assert s'.loadVars[|s.loadVars|] == (v.name, 8);
    }
  }

  lemma FreshSlotSim(s: Sym, base: Expr, off: Off, k: nat, env: Assignment, c0: Conc, c: Conc)
    requires k < 8 && Inv(s) && Sim(s, env, c0, c)
    requires FindByte(s.mem, CanonAddr(base, off).root, CanonAddr(base, off).disp + k).None?
    requires Hyp(HotSlot(s, base, off, k).0, env, c0)
    ensures var (s', i) := HotSlot(s, base, off, k);
            Inv(s') && Grows(s, s') && Sim(s', env, c0, c)
            && i == |s.mem| && |s'.mem| == |s.mem| + 1 && s.mem <= s'.mem
            && SlotAt(s', i, WrapU(Mean(base, env) + off), k, env)
  {
    hide Inv, Sim, Hyp, Grows, SlotAt, WrapU, CanonAddr, FindByte, Mean, FreshSlot;
    assert HotSlot(s, base, off, k) == (FreshSlot(s, base, off, k), |s.mem|);
    NewSlotSim(s, base, off, k, env, c0, c);
  }

  lemma NewSlotSim(s: Sym, base: Expr, off: Off, k: nat, env: Assignment, c0: Conc, c: Conc)
    requires k < 8 && Inv(s) && Sim(s, env, c0, c)
    requires Hyp(FreshSlot(s, base, off, k), env, c0)
    ensures var s' := FreshSlot(s, base, off, k);
            Inv(s') && Grows(s, s') && Sim(s', env, c0, c) && s.mem <= s'.mem
            && SlotAt(s', |s.mem|, WrapU(Mean(base, env) + off), k, env)
  {
    hide MemCells, RegSim, MemSim, PreHolds, WrapU, NoteAccess, Mean, SlotAt,
      BytesShaped, BoundsHold, KeysMatch, RegsListed, Allocate;
    var (names, idx) := Allocate(s.names);
    var n := OldMem(Byte, idx);
    var s1 := s.(names := names, loadVars := s.loadVars + [(n, 8)]);
    BoundsShapedAppend(s.loadVars, [(n, 8)]);
    var cell := MemCell(base, off, Byte, InitMem(n), k);
    var s2 := AddCell(s1, cell);
    NoteAccessKeeps(s2, base, off + k, 1, HotKey(base, off, k));
    AddCellSim(s1, cell, env, c0, c);
    NewSlotAt(s, FreshSlot(s, base, off, k), cell, env);
  }

  lemma NewSlotAt(s: Sym, s': Sym, cell: MemCell, env: Assignment)
    requires cell.width.Byte? && cell.value.InitMem? && ByteShaped(cell.value)
    requires s'.mem == s.mem + [cell] && s'.loadVars == s.loadVars + [(cell.value.name, 8)]
    requires BoundsShaped(s'.loadVars) && BoundsHold(s'.loadVars, env)
    ensures SlotAt(s', |s.mem|, WrapU(Mean(cell.base, env) + cell.off), cell.delta, env)
  {
    hide WrapU, Mean, BoundsHold;
    assert s'.loadVars[|s.loadVars|] == (cell.value.name, 8);
    ByteValueSmall(cell.value, s'.loadVars, env);
    WrapAddress(Mean(cell.base, env) + cell.off, cell.delta);
  }

  lemma HotSlotSim(s: Sym, base: Expr, off: Off, k: nat, env: Assignment, c0: Conc, c: Conc)
    requires k < 8 && Inv(s) && Sim(s, env, c0, c)
    requires Hyp(HotSlot(s, base, off, k).0, env, c0)
    ensures var (s', i) := HotSlot(s, base, off, k);
            Inv(s') && Grows(s, s') && Sim(s', env, c0, c)
            && SlotAt(s', i, WrapU(Mean(base, env) + off), k, env)
  {
    hide HotSlot, Inv, Sim, SlotAt, WrapU, Hyp, Grows;
    match FindByte(s.mem, CanonAddr(base, off).root, CanonAddr(base, off).disp + k)
    case Some(i) => FoundSlotSim(s, base, off, k, i, env, c0, c);
    case None => FreshSlotSim(s, base, off, k, env, c0, c);
  }

  /** Slot values read back: byte `k + j` of the access. */
  ghost predicate SlotValues(vs: seq<Expr>, start: u64, k: nat, env: Assignment, m: Memory) {
    forall j :: 0 <= j < |vs| ==> Mean(vs[j], env) == At(m, start, k + j)
  }

  lemma SlotValueRead(s: Sym, i: nat, start: u64, k: nat, env: Assignment, c0: Conc, c: Conc)
    requires Sim(s, env, c0, c) && SlotAt(s, i, start, k, env)
    ensures Mean(s.mem[i].value, env) == At(c.mem, start, k)
  {
    hide WrapU, Framed, RegSim, Mean;
    assert CellAgrees(s.mem[i], env, c.mem);
    var v := Mean(s.mem[i].value, env);
    assert At(c.mem, WrapU(start + k), 0) == ByteOf(v, 0);
    ByteOfShift(v, 0);
    WrapAddress(start + k, 0);
  }

  lemma GrowsTransitive(s: Sym, s': Sym, s'': Sym)
    requires Grows(s, s') && Grows(s', s'')
    ensures Grows(s, s'')
  {
  }

  lemma HotSlotGrows(s: Sym, base: Expr, off: Off, k: nat)
    requires k < 8
    ensures Grows(s, HotSlot(s, base, off, k).0)
  {
    hide FindByte, CanonAddr, NoteAccess;
    var (names, idx) := Allocate(s.names);
    var n := OldMem(Byte, idx);
    var s1 := s.(names := names, loadVars := s.loadVars + [(n, 8)]);
    NoteAccessKeeps(AddCell(s1, MemCell(base, off, Byte, InitMem(n), k)), base, off + k, 1, HotKey(base, off, k));
  }

  lemma {:induction false} HotLoadSlotsGrows(s: Sym, base: Expr, off: Off, k: nat)
    requires k <= 8
    ensures Grows(s, HotLoadSlots(s, base, off, k).0)
    decreases 8 - k
  {
    hide HotSlot, Grows;
    if k < 8 {
      var s1 := HotSlot(s, base, off, k).0;
      HotSlotGrows(s, base, off, k);
      HotLoadSlotsGrows(s1, base, off, k + 1);
      GrowsTransitive(s, s1, HotLoadSlots(s, base, off, k).0);
    } else {
      GrowsItself(s);
    }
  }

  lemma GrowsItself(s: Sym)
    ensures Grows(s, s)
  {
  }

  lemma {:induction false} HotLoadSlotsSim(s: Sym, base: Expr, off: Off, k: nat, env: Assignment, c0: Conc, c: Conc)
    requires k <= 8 && Inv(s) && Sim(s, env, c0, c)
    requires Hyp(HotLoadSlots(s, base, off, k).0, env, c0)
    ensures var (s', vs) := HotLoadSlots(s, base, off, k);
            Inv(s') && Sim(s', env, c0, c)
            && SlotValues(vs, WrapU(Mean(base, env) + off), k, env, c.mem)
    decreases 8 - k
  {
    hide HotSlot, Inv, Sim, WrapU, Hyp, Grows, SlotAt, At, Mean;
    if k < 8 {
      var (s1, i) := HotSlot(s, base, off, k);
      var start := WrapU(Mean(base, env) + off);
      HotLoadSlotsGrows(s1, base, off, k + 1);
      HypMonotone(s1, HotLoadSlots(s, base, off, k).0, env, c0);
      HotSlotSim(s, base, off, k, env, c0, c);
      HotLoadSlotsSim(s1, base, off, k + 1, env, c0, c);
      SlotValueRead(s1, i, start, k, env, c0, c);
      var vs, rest := HotLoadSlots(s, base, off, k).1, HotLoadSlots(s1, base, off, k + 1).1;
      forall j | 0 <= j < |vs|
        ensures Mean(vs[j], env) == At(c.mem, start, k + j)
      {
        if j > 0 {
          assert vs[j] == rest[j - 1];
        }
      }
    }
  }

  /** The Horner fold of bytes is their little-endian value. */
  lemma {:induction false} ComboValue(vs: seq<Expr>, bs: seq<u8>, env: Assignment)
    requires |vs| == |bs| <= 8
    requires forall j :: 0 <= j < |vs| ==> Mean(vs[j], env) == bs[j]
    ensures MeanCombo(vs, env) == LeValue(bs)
  {
    hide Mean, WrapU;
    if |vs| > 0 {
      var vs1, bs1 := vs[1..], bs[1..];
      forall j | 0 <= j < |vs1|
        ensures Mean(vs1[j], env) == bs1[j]
      {
        assert vs1[j] == vs[j + 1] && bs1[j] == bs[j + 1];
      }
      ComboValue(vs1, bs1, env);
      LeValueFits(bs);
      WrapId(LeValue(bs));
    }
  }

  lemma ComboLoaded(vs: seq<Expr>, start: u64, env: Assignment, m: Memory)
    requires |vs| == 8 && SlotValues(vs, start, 0, env, m)
    ensures Loaded(ByteCombo(vs), start, 8, env, m)
  {
    hide WrapU, At, ByteOf, LeValue;
    var bs := BytesAt(m, start, 8);
    ComboValue(vs, bs, env);
    forall i | 0 <= i < 8
      ensures At(m, start, i) == ByteOf(LeValue(bs), i)
    {
      ByteOfLeValue(bs, i);
    }
  }

  lemma ReadHotWideSim(s: Sym, base: Expr, off: Off, w: Width, env: Assignment, c0: Conc, c: Conc)
    requires Inv(s) && Sim(s, env, c0, c)
    requires Hyp(ReadHotWide(s, base, off, w).0, env, c0) && ReadHotWide(s, base, off, w).0.errors == []
    ensures var (s', e) := ReadHotWide(s, base, off, w);
            Inv(s') && Grows(s, s') && Sim(s', env, c0, c)
            && Loaded(e, WrapU(Mean(base, env) + off), Len(w), env, c.mem)
  {
    hide HotLoadSlots, MemSim, RegSim, PreHolds, BoundsHold, MemCells, Loaded, WrapU, Mean;
    if w.Dword? {
      HotLoadSlotsSim(s, base, off, 0, env, c0, c);
      HotLoadSlotsGrows(s, base, off, 0);
      ComboLoaded(HotLoadSlots(s, base, off, 0).1, WrapU(Mean(base, env) + off), env, c.mem);
    }
  }

  lemma PlansKeep(s: Sym, root: Root, lo: int, w: Width)
    ensures var s' := RequestDemotion(s, root, lo, w);
            s' == s.(newHot := s'.newHot) && s.newHot <= s'.newHot
    ensures var s' := PlanSplit(s, root, lo);
            s' == s.(newSplits := s'.newSplits) && s.newSplits <= s'.newSplits
  {
    hide ClashHull, AnyClash, HotIntersects, Position;
  }

  lemma ReadMemAtSim(s: Sym, base: Expr, off: Off, w: Width, env: Assignment, c0: Conc, c: Conc)
    requires Inv(s) && Sim(s, env, c0, c)
    requires Hyp(ReadMemAt(s, base, off, w).0, env, c0) && ReadMemAt(s, base, off, w).0.errors == []
    ensures var (s', e) := ReadMemAt(s, base, off, w);
            Inv(s') && Grows(s, s') && Sim(s', env, c0, c)
            && Loaded(e, WrapU(Mean(base, env) + off), Len(w), env, c.mem)
  {
    hide LoadCell, ReadHotWide, MemSim, RegSim, PreHolds, BoundsHold, MemCells, Loaded, WrapU, Mean,
      RequestDemotion, PlanSplit, HotCovers, CanonAddr;
    if w.Byte? {
      LoadCellSim(s, base, off, w, env, c0, c);
    } else {
      var a := CanonAddr(base, off);
      PlansKeep(s, a.root, a.disp, w);
      var s1 := if w.Dword? then PlanSplit(s, a.root, a.disp) else s;
      if HotCovers(s1.hot, a.root, a.disp, a.disp + Len(w)) {
        ReadHotWideSim(s1, base, off, w, env, c0, c);
      } else {
        PlansKeep(s1, a.root, a.disp, w);
        LoadCellSim(RequestDemotion(s1, a.root, a.disp, w), base, off, w, env, c0, c);
      }
    }
  }

  // ----- stores -----

  ghost predicate StoredValue(e: Expr, x: u64, w: Width, env: Assignment) {
    (w.Byte? ==> ByteShaped(e))
    && SameBytes(Mean(e, env), x, Len(w))
  }

  lemma SetValueSim(s: Sym, i: nat, e: Expr, x: u64, env: Assignment, c0: Conc, c: Conc)
    requires Inv(s) && Sim(s, env, c0, c) && Hyp(s, env, c0) && i < |s.mem|
    requires StoredValue(e, x, s.mem[i].width, env)
    ensures Inv(SetValue(s, i, e))
    ensures Sim(SetValue(s, i, e), env, c0,
                c.(mem := Write(c.mem, CellAddr(s.mem[i], env), Len(s.mem[i].width), x)))
  {
    hide Write, RegSim, Framed, MemCells, PreHolds, BoundsHold, ByteShaped, SameBytes;
    MemSeparated(s, env, c0);
    assert CellAgrees(s.mem[i], env, c.mem);
    SetCellSim(s.mem, i, e, x, env, c0.mem, c.mem);
  }

  lemma ExactFound(mem: seq<MemCell>, base: Expr, off: Off, w: Width, v: Expr)
    ensures Lookup(mem + [MemCell(base, off, w, v, 0)], base, off, w).Hit?
  {
    hide CanonAddr;
    var mem' := mem + [MemCell(base, off, w, v, 0)];
    assert IsExact(mem'[|mem|], base, off, w);
  }

  lemma MaterializedFound(s: Sym, base: Expr, off: Off, w: Width)
    requires w.Byte? || !HotCovers(s.hot, CanonAddr(base, off).root, CanonAddr(base, off).disp, CanonAddr(base, off).disp + Len(w))
    ensures Lookup(Materialized(s, base, off, w).mem, base, off, w).Hit?
  {
    hide Lookup, HotCovers, CanonAddr, RequestDemotion, PlanSplit, NoteAccess;
    if Lookup(s.mem, base, off, w).Missing? {
      var a := CanonAddr(base, off);
      PlansKeep(s, a.root, a.disp, w);
      PlansKeep(PlanSplit(s, a.root, a.disp), a.root, a.disp, w);
      var s1 :=
        if w.Byte? then s
        else RequestDemotion(if w.Dword? then PlanSplit(s, a.root, a.disp) else s, a.root, a.disp, w);
      assert s1.mem == s.mem;
      var (names, idx) := Allocate(s1.names);
      var n := OldMem(w, idx);
      var s2 := s1.(names := names, loadVars := s1.loadVars + LoadBound(w, n));
      NoteAccessKeeps(s2, base, off, Len(w), CellKey(base, off, w));
      assert ReadMemAt(s, base, off, w) == FreshCell(s1, base, off, w);
      ExactFound(s.mem, base, off, w, InitMem(n));
    }
  }

  lemma StoreCellSim(s: Sym, base: Expr, off: Off, w: Width, e: Expr, x: u64, env: Assignment, c0: Conc, c: Conc)
    requires Inv(s) && Sim(s, env, c0, c) && StoredValue(e, x, w, env)
    requires w.Byte? || !HotCovers(s.hot, CanonAddr(base, off).root, CanonAddr(base, off).disp, CanonAddr(base, off).disp + Len(w))
    requires Hyp(StoreCell(s, base, off, w, e), env, c0) && StoreCell(s, base, off, w, e).errors == []
    ensures var s' := StoreCell(s, base, off, w, e);
            Inv(s') && Grows(s, s')
            && Sim(s', env, c0, c.(mem := Write(c.mem, WrapU(Mean(base, env) + off), Len(w), x)))
  {
    hide Lookup, Materialized, MemSim, RegSim, PreHolds, BoundsHold, MemCells, WrapU, Mean, HotCovers,
      CanonAddr, Write, StoredValue, BytesShaped;
    var s1 := Materialized(s, base, off, w);
    MaterializedFound(s, base, off, w);
    MaterializedSim(s, base, off, w, env, c0, c);
    StoreThrough(s1, base, off, w, e, x, env, c0, c);
  }

  lemma MaterializedSim(s: Sym, base: Expr, off: Off, w: Width, env: Assignment, c0: Conc, c: Conc)
    requires Inv(s) && Sim(s, env, c0, c)
    requires Hyp(Materialized(s, base, off, w), env, c0) && Materialized(s, base, off, w).errors == []
    ensures var s' := Materialized(s, base, off, w);
            Inv(s') && Grows(s, s') && Sim(s', env, c0, c)
  {
    hide Lookup, ReadMemAt, MemSim, RegSim, PreHolds, BoundsHold, MemCells, WrapU, Mean, BytesShaped, Loaded;
    if Lookup(s.mem, base, off, w).Missing? {
      ReadMemAtSim(s, base, off, w, env, c0, c);
    }
  }

  lemma StoreThrough(s: Sym, base: Expr, off: Off, w: Width, e: Expr, x: u64, env: Assignment, c0: Conc, c: Conc)
    requires Inv(s) && Sim(s, env, c0, c) && StoredValue(e, x, w, env)
    requires Hyp(s, env, c0) && Lookup(s.mem, base, off, w).Hit?
    ensures var f := Lookup(s.mem, base, off, w);
            var s' := UseCell(SetValue(s, f.index, e), base, off, w, f.index, f.aliased, true);
            Inv(s') && Grows(s, s')
            && Sim(s', env, c0, c.(mem := Write(c.mem, WrapU(Mean(base, env) + off), Len(w), x)))
  {
    hide Lookup, MemSim, RegSim, PreHolds, BoundsHold, MemCells, WrapU, Mean, Write, StoredValue, BytesShaped, Loaded;
    var i := Lookup(s.mem, base, off, w).index;
    LookupLoaded(s.mem, base, off, w, env, c0.mem, c.mem);
    SetValueSim(s, i, e, x, env, c0, c);
  }

  // ----- byte-granular stores -----

  /** Bytes `k` to 3 of `v` written, the others left as they are. */
  function WriteFrom(m: Memory, start: u64, v: u64, k: nat): Memory {
    (a: u64) => if k <= WrapU(a - start) < 4 then ByteOf(v, WrapU(a - start)) else m(a)
  }

  ghost predicate SameMemory(m: Memory, m': Memory) {
    forall a: u64 :: m(a) == m'(a)
  }

  lemma MemSimSame(mem: seq<MemCell>, env: Assignment, m0: Memory, m: Memory, m': Memory)
    requires MemSim(mem, env, m0, m) && SameMemory(m, m')
    ensures MemSim(mem, env, m0, m')
  {
    hide WrapU, ByteOf, Mean;
    forall i | 0 <= i < |mem|
      ensures CellAgrees(mem[i], env, m')
    {
      assert CellAgrees(mem[i], env, m);
    }
  }

  lemma WriteFromStep(m: Memory, start: u64, v: u64, k: nat)
    requires k < 4
    ensures SameMemory(WriteFrom(Write(m, WrapU(start + k), 1, ByteOf(v, k)), start, v, k + 1),
                       WriteFrom(m, start, v, k))
  {
    hide ByteOf;
    var p, b := WrapU(start + k), ByteOf(v, k);
    forall a: u64
      ensures WriteFrom(Write(m, p, 1, b), start, v, k + 1)(a) == WriteFrom(m, start, v, k)(a)
    {
      FootAddress(a, start);
      FootAddress(a, p);
      FootOffset(start, k);
      ByteOfShift(b, 0);
      assert WrapU(a - start) == k <==> a == p;
      assert InFoot(a, p, 1) <==> a == p;
    }
  }

  lemma {:induction false} HotStoreSlotsGrows(s: Sym, base: Expr, off: Off, imm: i64, k: nat)
    requires k <= 4
    ensures Grows(s, HotStoreSlots(s, base, off, imm, k))
    decreases 4 - k
  {
    hide HotSlot, Grows;
    if k < 4 {
      var (s1, i) := HotSlot(s, base, off, k);
      var s2 := SetValue(s1, i, Const(ByteOf(WrapU(imm), k)));
      HotSlotGrows(s, base, off, k);
      SetValueGrows(s1, i, Const(ByteOf(WrapU(imm), k)));
      HotStoreSlotsGrows(s2, base, off, imm, k + 1);
      GrowsTransitive(s, s1, s2);
      GrowsTransitive(s, s2, HotStoreSlots(s, base, off, imm, k));
    } else {
      GrowsItself(s);
    }
  }

  lemma SetValueGrows(s: Sym, i: nat, e: Expr)
    requires i < |s.mem|
    ensures Grows(s, SetValue(s, i, e))
  {
  }

  lemma HotStoreOne(s: Sym, base: Expr, off: Off, imm: i64, k: nat, env: Assignment, c0: Conc, c: Conc)
    requires k < 4 && Inv(s) && Sim(s, env, c0, c)
    requires Hyp(HotSlot(s, base, off, k).0, env, c0)
    ensures var (s1, i) := HotSlot(s, base, off, k);
            var b := ByteOf(WrapU(imm), k);
            var start := WrapU(Mean(base, env) + off);
            Inv(SetValue(s1, i, Const(b)))
            && Sim(SetValue(s1, i, Const(b)), env, c0, c.(mem := Write(c.mem, WrapU(start + k), 1, b)))
  {
    hide HotSlot, Inv, Sim, WrapU, Hyp, Grows, ByteOf, Write, SetValue;
    HotSlotSim(s, base, off, k, env, c0, c);
    var (s1, i) := HotSlot(s, base, off, k);
    WrapId(ByteOf(WrapU(imm), k));
    SetValueSim(s1, i, Const(ByteOf(WrapU(imm), k)), ByteOf(WrapU(imm), k), env, c0, c);
  }

  lemma {:induction false} HotStoreSlotsSim(s: Sym, base: Expr, off: Off, imm: i64, k: nat, env: Assignment, c0: Conc, c: Conc)
    requires k <= 4 && Inv(s) && Sim(s, env, c0, c)
    requires Hyp(HotStoreSlots(s, base, off, imm, k), env, c0)
    ensures var s' := HotStoreSlots(s, base, off, imm, k);
            var start := WrapU(Mean(base, env) + off);
            Inv(s') && Sim(s', env, c0, c.(mem := WriteFrom(c.mem, start, WrapU(imm), k)))
    decreases 4 - k
  {
    hide HotSlot, Inv, RegSim, MemSim, WrapU, Hyp, Grows, ByteOf, Write, SetValue, SameMemory, Mean;
    var start, v := WrapU(Mean(base, env) + off), WrapU(imm);
    var s' := HotStoreSlots(s, base, off, imm, k);
    if k == 4 {
      WriteFromNothing(c.mem, start, v);
      MemSimSame(s.mem, env, c0.mem, c.mem, WriteFrom(c.mem, start, v, 4));
    } else {
      var (s1, i) := HotSlot(s, base, off, k);
      var s2 := SetValue(s1, i, Const(ByteOf(v, k)));
      var m2 := Write(c.mem, WrapU(start + k), 1, ByteOf(v, k));
      HotStoreSlotsGrows(s2, base, off, imm, k + 1);
      SetValueGrows(s1, i, Const(ByteOf(v, k)));
      GrowsTransitive(s1, s2, s');
      HypMonotone(s1, s', env, c0);
      HotStoreOne(s, base, off, imm, k, env, c0, c);
      HotStoreSlotsSim(s2, base, off, imm, k + 1, env, c0, c.(mem := m2));
      WriteFromStep(c.mem, start, v, k);
      MemSimSame(s'.mem, env, c0.mem, WriteFrom(m2, start, v, k + 1), WriteFrom(c.mem, start, v, k));
    }
  }

  lemma WriteFromNothing(m: Memory, start: u64, v: u64)
    ensures SameMemory(m, WriteFrom(m, start, v, 4))
  {
  }

  lemma WriteFromAll(m: Memory, start: u64, v: u64, x: u64)
    requires SameBytes(v, x, 4)
    ensures SameMemory(WriteFrom(m, start, v, 0), Write(m, start, 4, x))
  {
    hide ByteOf;
    forall a: u64
      ensures WriteFrom(m, start, v, 0)(a) == Write(m, start, 4, x)(a)
    {
      var d := WrapU(a - start);
      assert InFoot(a, start, 4) <==> d < 4;
      assert 0 <= d < 4 ==> ByteOf(v, d) == ByteOf(x, d);
      assert WriteFrom(m, start, v, 0)(a) == if 0 <= d < 4 then ByteOf(v, d) else m(a);
    }
  }

  lemma WriteHotWordImmSim(s: Sym, base: Expr, off: Off, imm: i64, x: u64, env: Assignment, c0: Conc, c: Conc)
    requires Inv(s) && Sim(s, env, c0, c)
    requires StoredValue(StImm(Word, imm), x, Word, env)
    requires Hyp(WriteHotWordImm(s, base, off, imm), env, c0)
    ensures var s' := WriteHotWordImm(s, base, off, imm);
            Inv(s') && Grows(s, s')
            && Sim(s', env, c0, c.(mem := Write(c.mem, WrapU(Mean(base, env) + off), 4, x)))
  {
    hide HotStoreSlots, BytesShaped, MemCells, RegSim, MemSim, WrapU, PreHolds, BoundsHold, ByteOf, Write, WriteFrom, SameMemory, Mean;
    var s1 := HotStoreSlots(s, base, off, imm, 0);
    var start, v := WrapU(Mean(base, env) + off), WrapU(imm);
    HotStoreSlotsGrows(s, base, off, imm, 0);
    HotStoreSlotsSim(s, base, off, imm, 0, env, c0, c);
    StImmBytes(Word, imm, x, env);
    WriteFromAll(c.mem, start, v, x);
    MemSimSame(s1.mem, env, c0.mem, WriteFrom(c.mem, start, v, 0), Write(c.mem, start, 4, x));
  }

  lemma StImmBytes(w: Width, imm: i64, x: u64, env: Assignment)
    requires StoredValue(StImm(w, imm), x, w, env)
    ensures SameBytes(WrapU(imm), x, Len(w))
  {
    hide ByteOf, WrapU, Pow256;
    TruncationKeepsBytes(WrapU(imm), Len(w));
  }

  lemma StoreHotSim(s: Sym, base: Expr, off: Off, w: Width, e: Expr, x: u64, env: Assignment, c0: Conc, c: Conc)
    requires Inv(s) && Sim(s, env, c0, c) && StoredValue(e, x, w, env)
    requires Hyp(StoreHot(s, base, off, w, e), env, c0) && Clean(StoreHot(s, base, off, w, e))
    ensures var s' := StoreHot(s, base, off, w, e);
            Inv(s') && Grows(s, s')
            && Sim(s', env, c0, c.(mem := Write(c.mem, WrapU(Mean(base, env) + off), Len(w), x)))
  {
    hide WriteHotWordImm, MemSim, RegSim, PreHolds, BoundsHold, MemCells, WrapU, Mean, Write, BytesShaped,
      ByteShaped, SameBytes;
    if w.Word? && e.StImm? && e.width.Word? {
      WriteHotWordImmSim(s, base, off, e.imm, x, env, c0, c);
    }
  }

  lemma StoreColdSim(s: Sym, a: Canon, base: Expr, off: Off, w: Width, e: Expr, x: u64, env: Assignment, c0: Conc, c: Conc)
    requires Inv(s) && Sim(s, env, c0, c) && StoredValue(e, x, w, env)
    requires a == CanonAddr(base, off) && !HotCovers(s.hot, a.root, a.disp, a.disp + Len(w))
    requires Hyp(StoreCold(s, a, base, off, w, e), env, c0) && Clean(StoreCold(s, a, base, off, w, e))
    ensures var s' := StoreCold(s, a, base, off, w, e);
            Inv(s') && Grows(s, s')
            && Sim(s', env, c0, c.(mem := Write(c.mem, WrapU(Mean(base, env) + off), Len(w), x)))
  {
    hide StoreCell, MemSim, RegSim, PreHolds, BoundsHold, MemCells, WrapU, Mean, HotCovers,
      HotIntersects, CanonAddr, Write, BytesShaped, ClashHull, AnyClash, StoredValue;
    StoreCellSim(RequestDemotion(s, a.root, a.disp, w), base, off, w, e, x, env, c0, c);
  }

  lemma WriteMemAtSim(s: Sym, base: Expr, off: Off, w: Width, e: Expr, x: u64, env: Assignment, c0: Conc, c: Conc)
    requires Inv(s) && Sim(s, env, c0, c) && StoredValue(e, x, w, env)
    requires Hyp(WriteMemAt(s, base, off, w, e), env, c0) && Clean(WriteMemAt(s, base, off, w, e))
    ensures var s' := WriteMemAt(s, base, off, w, e);
            Inv(s') && Grows(s, s')
            && Sim(s', env, c0, c.(mem := Write(c.mem, WrapU(Mean(base, env) + off), Len(w), x)))
  {
    hide StoreCell, StoreHot, StoreCold, Inv, Sim, Hyp, Grows, WrapU, Mean, HotCovers, CanonAddr, Write, StoredValue;
    var s' := WriteMemAt(s, base, off, w, e);
    var a := CanonAddr(base, off);
    if w.Byte? {
      assert s' == StoreCell(s, base, off, w, e);
      StoreCellSim(s, base, off, w, e, x, env, c0, c);
    } else if HotCovers(s.hot, a.root, a.disp, a.disp + Len(w)) {
      assert s' == StoreHot(s, base, off, w, e);
      StoreHotSim(s, base, off, w, e, x, env, c0, c);
    } else {
      assert s' == StoreCold(s, a, base, off, w, e);
      StoreColdSim(s, a, base, off, w, e, x, env, c0, c);
    }
  }

  // ----- every operation only adds -----

  lemma RegsGrow(s: Sym, r: Reg, e: Expr)
    ensures Grows(s, ReadReg(s, r).0) && Grows(s, WriteReg(s, r, e))
  {
  }

  lemma LoadCellGrows(s: Sym, base: Expr, off: Off, w: Width)
    ensures Grows(s, LoadCell(s, base, off, w).0)
  {
    hide Lookup, NoteAccess;
    var (names, idx) := Allocate(s.names);
    var n := OldMem(w, idx);
    var s1 := s.(names := names, loadVars := s.loadVars + LoadBound(w, n));
    NoteAccessKeeps(s1, base, off, Len(w), CellKey(base, off, w));
  }

  lemma ReadMemAtGrows(s: Sym, base: Expr, off: Off, w: Width)
    ensures Grows(s, ReadMemAt(s, base, off, w).0)
  {
    hide LoadCell, RequestDemotion, PlanSplit, HotCovers, CanonAddr, ReadHotWide, Grows;
    if w.Byte? {
      LoadCellGrows(s, base, off, w);
    } else {
      var a := CanonAddr(base, off);
      PlansGrow(s, a.root, a.disp, w);
      var s1 := if w.Dword? then PlanSplit(s, a.root, a.disp) else s;
      PlansGrow(s1, a.root, a.disp, w);
      var s2 := RequestDemotion(s1, a.root, a.disp, w);
      LoadCellGrows(s2, base, off, w);
      ReadHotWideGrows(s1, base, off, w);
      GrowsTransitive(s, s1, s2);
      GrowsTransitive(s, s2, LoadCell(s2, base, off, w).0);
      GrowsTransitive(s, s1, ReadHotWide(s1, base, off, w).0);
    }
  }

  lemma PlansGrow(s: Sym, root: Root, lo: int, w: Width)
    ensures Grows(s, s) && Grows(s, RequestDemotion(s, root, lo, w)) && Grows(s, PlanSplit(s, root, lo))
  {
    hide RequestDemotion, PlanSplit;
    PlansKeep(s, root, lo, w);
  }

  lemma ReadHotWideGrows(s: Sym, base: Expr, off: Off, w: Width)
    ensures Grows(s, ReadHotWide(s, base, off, w).0)
  {
    hide HotLoadSlots;
    HotLoadSlotsGrows(s, base, off, 0);
  }

  lemma StoreCellGrows(s: Sym, base: Expr, off: Off, w: Width, e: Expr)
    ensures Grows(s, StoreCell(s, base, off, w, e))
  {
    hide Lookup, Materialized;
    var s1 := Materialized(s, base, off, w);
    MaterializedGrows(s, base, off, w);
    assert Grows(s1, StoreCell(s, base, off, w, e));
    GrowsTransitive(s, s1, StoreCell(s, base, off, w, e));
  }

  lemma MaterializedGrows(s: Sym, base: Expr, off: Off, w: Width)
    ensures Grows(s, Materialized(s, base, off, w))
  {
    hide Lookup, ReadMemAt;
    ReadMemAtGrows(s, base, off, w);
  }

  lemma StoreHotGrows(s: Sym, base: Expr, off: Off, w: Width, e: Expr)
    ensures Grows(s, StoreHot(s, base, off, w, e))
  {
    hide HotStoreSlots;
    if e.StImm? {
      HotStoreSlotsGrows(s, base, off, e.imm, 0);
    }
  }

  lemma StoreColdGrows(s: Sym, a: Canon, base: Expr, off: Off, w: Width, e: Expr)
    ensures Grows(s, StoreCold(s, a, base, off, w, e))
  {
    hide StoreCell, RequestDemotion, PlanSplit, HotIntersects, Grows;
    var s1 := RequestDemotion(s, a.root, a.disp, w);
    PlansGrow(s, a.root, a.disp, w);
    StoreCellGrows(s1, base, off, w, e);
    GrowsTransitive(s, s1, StoreCell(s1, base, off, w, e));
  }

  lemma WriteMemAtGrows(s: Sym, base: Expr, off: Off, w: Width, e: Expr)
    ensures Grows(s, WriteMemAt(s, base, off, w, e))
  {
    hide StoreCell, StoreHot, StoreCold, HotCovers, CanonAddr, Grows;
    var a := CanonAddr(base, off);
    StoreCellGrows(s, base, off, w, e);
    StoreHotGrows(s, base, off, w, e);
    StoreColdGrows(s, a, base, off, w, e);
  }

  // ----- the operations of the interface -----

  /** `read_mem`: the state stays in step and the result is what memory holds there. */
  lemma ReadMemSim(s: Sym, r: Reg, off: Off, w: Width, env: Assignment, c0: Conc, c: Conc)
    requires Inv(s) && Sim(s, env, c0, c)
    requires Hyp(ReadMem(s, r, off, w).0, env, c0) && ReadMem(s, r, off, w).0.errors == []
    ensures var (s', e) := ReadMem(s, r, off, w);
            Inv(s') && Sim(s', env, c0, c)
            && Loaded(e, WrapU(c.regs(r) + off), Len(w), env, c.mem)
  {
    hide ReadReg, ReadMemAt, Inv, Sim, Hyp, Loaded, WrapU, Mean, Grows;
    var (s1, base) := ReadReg(s, r);
    ReadMemAtGrows(s1, base, off, w);
    HypMonotone(s1, ReadMem(s, r, off, w).0, env, c0);
    ReadRegSim(s, r, env, c0, c);
    ReadMemAtSim(s1, base, off, w, env, c0, c);
  }

  /** `write_mem`: the state stays in step with the machine's store. */
  lemma WriteMemSim(s: Sym, r: Reg, off: Off, w: Width, e: Expr, x: u64, env: Assignment, c0: Conc, c: Conc)
    requires Inv(s) && Sim(s, env, c0, c) && StoredValue(e, x, w, env)
    requires Hyp(WriteMem(s, r, off, w, e), env, c0) && Clean(WriteMem(s, r, off, w, e))
    ensures var s' := WriteMem(s, r, off, w, e);
            Inv(s') && Sim(s', env, c0, c.(mem := Write(c.mem, WrapU(c.regs(r) + off), Len(w), x)))
  {
    hide ReadReg, WriteMemAt, Inv, Sim, Hyp, WrapU, Mean, Grows, Clean, StoredValue, Write;
    var (s1, base) := ReadReg(s, r);
    WriteMemAtGrows(s1, base, off, w, e);
    HypMonotone(s1, WriteMem(s, r, off, w, e), env, c0);
    ReadRegSim(s, r, env, c0, c);
    WriteMemAtSim(s1, base, off, w, e, x, env, c0, c);
  }

  /** Agreement of the whole state is agreement of the emitted postcondition. */
  lemma PostHolds(s: Sym, env: Assignment, c0: Conc, c: Conc)
    requires Inv(s) && Sim(s, env, c0, c)
    ensures forall i :: 0 <= i < |s.pre| ==> AtomHolds(PostAtoms(s.pre, s)[i], env, c)
    ensures Framed(MemCells(s.pre), env, c0.mem, c.mem)
  {
    hide Mean, WrapU, Holds, ByteShaped;
    forall i | 0 <= i < |s.pre|
      ensures AtomHolds(PostAtoms(s.pre, s)[i], env, c)
    {
      if s.pre[i].MemAtom? {
        PostCellHolds(s, i, env, c0, c);
      }
    }
    var cells := MemCells(s.pre);
    forall a: u64 | Untouched(a, cells, env)
      ensures c.mem(a) == c0.mem(a)
    {
      forall j | 0 <= j < |s.mem|
        ensures Outside(a, s.mem[j], env)
      {
        assert Outside(a, cells[j], env) && SameKey(cells[j], s.mem[j]);
      }
    }
  }

  lemma {:induction false} ListedCell(pre: seq<Atom>, i: nat) returns (j: nat)
    requires i < |pre| && pre[i].MemAtom?
    ensures j < |MemCells(pre)| && MemCells(pre)[j] == pre[i].cell
  {
    if i == |pre| - 1 {
      j := |MemCells(pre)| - 1;
    } else {
      j := ListedCell(pre[..|pre| - 1], i);
    }
  }

  lemma PostCellHolds(s: Sym, i: nat, env: Assignment, c0: Conc, c: Conc)
    requires Inv(s) && Sim(s, env, c0, c) && i < |s.pre| && s.pre[i].MemAtom?
    ensures AtomHolds(PostAtom(s.pre[i], s), env, c)
  {
    hide Mean, WrapU, Holds, ByteShaped, Framed, RegSim;
    var cell := s.pre[i].cell;
    var j := ListedCell(s.pre, i);
    assert SameKey(s.mem[j], cell);
    var at := Position(s.mem, (d: MemCell) => SameKey(d, cell)).value;
    assert SameKey(s.mem[at], cell) && CellAgrees(s.mem[at], env, c.mem);
  }
}
