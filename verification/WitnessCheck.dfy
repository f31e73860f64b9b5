/** What the overlap check of the satisfiability witness is worth: which accepted assignments a
    machine state satisfies, and when the check is sure to succeed. */
module WitnessCheck {
  import opened Words
  import opened Alu
  import opened SymExpr
  import opened SymModel
  import opened LiftSound
  import opened Branch
  import opened Lift
  import opened LiftInvariants
  import opened LiftCoverage
  import opened UnionFind
  import opened BranchWitness
  import opened SatWitness

  // ----- atoms in the machine -----

  /** The cell ends before the end of the address space, without clamping, wrapping or overflow. */
  ghost predicate InSpace(a: Atom, env: Assignment) {
    a.MemAtom? ==>
      var p := Mean(a.cell.base, env) + a.cell.off;
      0 <= p && p + a.cell.delta + Len(a.cell.width) < TWO64
  }

  lemma InFootPlain(a: u64, p: u64, n: nat)
    requires p + n <= TWO64
    ensures InFoot(a, p, n) <==> p <= a < p + n
  {
  }

  lemma ApartIsDisjoint(p: u64, n: nat, q: u64, k: nat)
    requires p + n <= TWO64 && q + k <= TWO64 && (p + n <= q || q + k <= p)
    ensures Disjoint(p, n, q, k)
  {
    hide InFoot;
    forall a: u64
      ensures !(InFoot(a, p, n) && InFoot(a, q, k))
    {
      InFootPlain(a, p, n);
      InFootPlain(a, q, k);
    }
  }

  /** Two atoms own different registers, or disjoint memory. */
  ghost predicate AtomApart(a: Atom, b: Atom, env: Assignment) {
    match a
    case RegAtom(r, _) => b.RegAtom? ==> b.reg != r
    case MemAtom(c) => b.MemAtom? ==> SeparateCells(c, b.cell, env) && SeparateCells(b.cell, c, env)
  }

  /** A foot inside the address space is where the machine has the cell. */
  lemma FootInSpace(c: MemCell, env: Env)
    requires FootOf(MemAtom(c), env).Some? && InSpace(MemAtom(c), Total(env))
    ensures var m := FootOf(MemAtom(c), env).value.mem.value;
            m == (CellAddr(c, Total(env)), Len(c.width)) && m.0 + m.1 < TWO64 && End(m) == m.0 + m.1
  {
    hide Mean, Eval, WrapU;
    MeanExtends(c.base, env, Total(env));
    var p: int := Mean(c.base, Total(env)) + c.off;
    WrapId(p + c.delta);
    WrapId(p + c.delta + Len(c.width));
  }

  lemma NoClashApart(a: Atom, b: Atom, env: Env)
    requires FootOf(a, env).Some? && FootOf(b, env).Some? && InSpace(a, Total(env)) && InSpace(b, Total(env))
    requires !Clash(FootOf(a, env).value, FootOf(b, env).value)
    ensures AtomApart(a, b, Total(env))
  {
    hide Eval, Eff, Disjoint, CellAddr, InSpace, Mean;
    if a.MemAtom? && b.MemAtom? {
      hide FootOf;
      FootInSpace(a.cell, env);
      FootInSpace(b.cell, env);
      var p, n := CellAddr(a.cell, Total(env)), Len(a.cell.width);
      var q, k := CellAddr(b.cell, Total(env)), Len(b.cell.width);
      ApartIsDisjoint(p, n, q, k);
      ApartIsDisjoint(q, k, p, n);
    }
  }

  // ----- a machine state built atom by atom -----

  /** What one atom asks of a machine state is written into it. */
  function Placed(c: Conc, a: Atom, env: Assignment): Conc {
    match a
    case RegAtom(r, v) => Conc(SetReg(c.regs, r, Mean(v, env)), c.mem)
    case MemAtom(cell) => Conc(c.regs, Write(c.mem, CellAddr(cell, env), Len(cell.width), Mean(cell.value, env)))
  }

  ghost function Built(pre: seq<Atom>, env: Assignment): Conc {
    if |pre| == 0 then Conc((r: Reg) => 0, (a: u64) => 0)
    else Placed(Built(pre[..|pre| - 1], env), pre[|pre| - 1], env)
  }

  ghost predicate AllApart(pre: seq<Atom>, env: Assignment) {
    forall i, j :: 0 <= i < j < |pre| ==> AtomApart(pre[i], pre[j], env)
  }

  /** Adding an atom makes it hold and disturbs no atom apart from it. */
  lemma PlacedHolds(c: Conc, last: Atom, env: Assignment, a: Atom)
    requires a == last || (AtomApart(a, last, env) && AtomHolds(a, env, c))
    ensures AtomHolds(a, env, Placed(c, last, env))
  {
    hide Mean, Disjoint, CellAddr, Holds, Write;
    if last.MemAtom? {
      var p, n, v := CellAddr(last.cell, env), Len(last.cell.width), Mean(last.cell.value, env);
      WriteHolds(c.mem, p, n, v);
      if a != last && a.MemAtom? {
        WriteElsewhere(c.mem, p, n, v, CellAddr(a.cell, env), Len(a.cell.width), Mean(a.cell.value, env));
      }
    }
  }

  lemma {:induction false} BuiltHolds(pre: seq<Atom>, env: Assignment, i: nat)
    requires i < |pre| && AllApart(pre, env)
    ensures AtomHolds(pre[i], env, Built(pre, env))
  {
    hide AtomApart, AtomHolds, Placed;
    if i < |pre| - 1 {
      var init := pre[..|pre| - 1];
      forall k, l | 0 <= k < l < |init|
        ensures AtomApart(init[k], init[l], env)
      {
        assert init[k] == pre[k] && init[l] == pre[l];
      }
      BuiltHolds(init, env, i);
    }
    PlacedHolds(Built(pre[..|pre| - 1], env), pre[|pre| - 1], env, pre[i]);
  }

  // ----- cells of a precondition -----

  /** Where the cell of atom `i` stands among the cells. */
  lemma CellPlace(pre: seq<Atom>, i: nat)
    requires i < |pre| && pre[i].MemAtom?
    ensures var k := |MemCells(pre[..i])|; k < |MemCells(pre)| && MemCells(pre)[k] == pre[i].cell
  {
    hide MemCells;
    MemCellsAppend(pre[..i], pre[i]);
    assert pre[..i] + [pre[i]] == pre[..i + 1];
    MemCellsPrefix(pre[..i + 1], pre);
    assert MemCells(pre[..i + 1])[|MemCells(pre[..i])|] == pre[i].cell;
  }

  lemma CellPlacesDiffer(pre: seq<Atom>, i: nat, j: nat)
    requires i < j < |pre| && pre[i].MemAtom?
    ensures |MemCells(pre[..i])| < |MemCells(pre[..j])|
  {
    hide MemCells;
    MemCellsAppend(pre[..i], pre[i]);
    assert pre[..i] + [pre[i]] == pre[..i + 1];
    MemCellsPrefix(pre[..i + 1], pre[..j]);
  }

  lemma {:induction false} CellSource(pre: seq<Atom>, i: nat) returns (j: nat)
    requires i < |MemCells(pre)|
    ensures j < |pre| && pre[j] == MemAtom(MemCells(pre)[i]) && |MemCells(pre[..j])| == i
  {
    var init := pre[..|pre| - 1];
    if i < |MemCells(init)| {
      j := CellSource(init, i);
      assert init[..j] == pre[..j];
    } else {
      j := |pre| - 1;
    }
  }

  /** Separation of the cells is separation of the atoms, pair by pair. */
  lemma SeparatedIff(pre: seq<Atom>, env: Assignment)
    ensures Separated(MemCells(pre), env) <==>
            forall i, j :: 0 <= i < j < |pre| && pre[i].MemAtom? && pre[j].MemAtom? ==> AtomApart(pre[i], pre[j], env)
  {
    hide MemCells, SeparateCells;
    var cells := MemCells(pre);
    if Separated(cells, env) {
      forall i, j | 0 <= i < j < |pre| && pre[i].MemAtom? && pre[j].MemAtom?
        ensures AtomApart(pre[i], pre[j], env)
      {
        CellPlace(pre, i);
        CellPlace(pre, j);
        CellPlacesDiffer(pre, i, j);
        assert SeparateCells(cells[|MemCells(pre[..i])|], cells[|MemCells(pre[..j])|], env);
        assert SeparateCells(cells[|MemCells(pre[..j])|], cells[|MemCells(pre[..i])|], env);
      }
    }
    if forall i, j :: 0 <= i < j < |pre| && pre[i].MemAtom? && pre[j].MemAtom? ==> AtomApart(pre[i], pre[j], env) {
      forall k, l | 0 <= k < |cells| && 0 <= l < |cells| && k != l
        ensures SeparateCells(cells[k], cells[l], env)
      {
        var i := CellSource(pre, k);
        var j := CellSource(pre, l);
        assert AtomApart(pre[if i < j then i else j], pre[if i < j then j else i], env);
      }
    }
  }

  // ----- the exact condition -----

  /** Every pair of atoms of which one lies outside the address space is disjoint in the machine. */
  ghost predicate OutsideApart(pre: seq<Atom>, env: Assignment) {
    forall i, j :: 0 <= i < j < |pre| && !(InSpace(pre[i], env) && InSpace(pre[j], env)) ==> AtomApart(pre[i], pre[j], env)
  }

  lemma PassesApart(pre: seq<Atom>, env: Env)
    requires Passes(pre, env) && OutsideApart(pre, Total(env))
    ensures AllApart(pre, Total(env))
  {
    hide FootOf, Clash, InSpace, AtomApart;
    var feet :| FeetRight(pre, env, feet) && NoClash(feet);
    forall i, j | 0 <= i < j < |pre|
      ensures AtomApart(pre[i], pre[j], Total(env))
    {
      assert FootOf(pre[i], env) == Some(feet[i]) && FootOf(pre[j], env) == Some(feet[j]);
      if InSpace(pre[i], Total(env)) && InSpace(pre[j], Total(env)) {
        NoClashApart(pre[i], pre[j], env);
      }
    }
  }

  /** A witness that passed the check is one, some machine state satisfying the precondition under
      it with separation, if and only if its atoms outside the address space are disjoint from the
      others in the wrapping machine. */
  lemma WitnessSatisfiesIff(pre: seq<Atom>, env: Env)
    requires Passes(pre, env)
    ensures (exists c :: PreHolds(pre, Total(env), c)) <==> OutsideApart(pre, Total(env))
  {
    hide FootOf, Clash, InSpace, AtomHolds, Separated, AtomApart, FeetRight;
    SeparatedIff(pre, Total(env));
    if OutsideApart(pre, Total(env)) {
      PassesApart(pre, env);
      forall i | 0 <= i < |pre|
        ensures AtomHolds(pre[i], Total(env), Built(pre, Total(env)))
      {
        BuiltHolds(pre, Total(env), i);
      }
      assert PreHolds(pre, Total(env), Built(pre, Total(env)));
    }
    if exists c :: PreHolds(pre, Total(env), c) {
      forall i, j | 0 <= i < j < |pre| && !(InSpace(pre[i], Total(env)) && InSpace(pre[j], Total(env)))
        ensures AtomApart(pre[i], pre[j], Total(env))
      {
        OutsideIsMemory(pre, env, i, j);
      }
    }
  }

  lemma OutsideIsMemory(pre: seq<Atom>, env: Env, i: nat, j: nat)
    requires i < j < |pre| && Passes(pre, env)
    requires !(InSpace(pre[i], Total(env)) && InSpace(pre[j], Total(env)))
    ensures (pre[i].MemAtom? && pre[j].MemAtom?) || AtomApart(pre[i], pre[j], Total(env))
  {
    hide Eval, Mean, Eff;
  }

  /** In particular it is one when every cell ends inside the address space. */
  lemma WitnessInSpaceSatisfies(pre: seq<Atom>, env: Env)
    requires Passes(pre, env) && forall i :: 0 <= i < |pre| ==> InSpace(pre[i], Total(env))
    ensures exists c :: PreHolds(pre, Total(env), c)
  {
    hide Passes, InSpace, PreHolds;
    WitnessSatisfiesIff(pre, env);
  }

  // ----- an overlap the check misses -----

  /** Dwords at `r2 - 0x4_0000_0000 - 8` and at the constant address -8, on different roots. */
  const LOW_BASE: Expr := Binary(WrapSub, InitReg(RegOld(2)), ToU64(Const(0x4_0000_0000)))
  const TOP_BASE: Expr := ToU64(Const(-8))
  const LOW: MemCell := MemCell(LOW_BASE, -8, Dword, InitMem(OldMem(Dword, 0)), 0)
  const TOP: MemCell := MemCell(TOP_BASE, 0, Dword, InitMem(OldMem(Dword, 1)), 0)
  const OVERLAP: seq<Atom> := [RegAtom(2, InitReg(RegOld(2))), MemAtom(LOW), MemAtom(TOP)]
  const OVERLAP_VARS: seq<Name> := [RegOld(2), OldMem(Dword, 0), OldMem(Dword, 1)]
  const OVERLAP_ENV: Env := map[RegOld(2) := 0x4_0000_0000, OldMem(Dword, 0) := 0, OldMem(Dword, 1) := 0]

  lemma OverlapRoots()
    ensures AddressRoot(LOW_BASE) == Some(InitReg(RegOld(2))) && AddressRoot(TOP_BASE) == None
    ensures AddressExprs(OVERLAP) == [LOW_BASE, TOP_BASE]
  {
    assert ConstOf(ToU64(Const(0x4_0000_0000))) == Some(0x4_0000_0000);
    assert Peel(LOW_BASE) == Some(Peeled(InitReg(RegOld(2)), -0x4_0000_0000));
    assert OVERLAP[..2] == [RegAtom(2, InitReg(RegOld(2))), MemAtom(LOW)];
    assert OVERLAP[..2][..1] == [RegAtom(2, InitReg(RegOld(2)))];
    assert AddressExprs(OVERLAP[..1]) == [];
    assert AddressExprs(OVERLAP[..2]) == [LOW_BASE];
  }

  lemma OverlapAssigned()
    ensures Assigned(OVERLAP, OVERLAP_VARS) == Some(OVERLAP_ENV)
  {
    OverlapRoots();
    hide AddressRoot, AddressExprs, Eval, Solve;
    var addrs := [LOW_BASE, TOP_BASE];
    var st := Steering(map[RegOld(2) := 0x4_0000_0000], 1, map[InitReg(RegOld(2)) := 0]);
    assert NamedRoots(addrs, 1) == NameRoot(LOW_BASE, UNSTEERED);
    assert NamedRoots(addrs, 1) == st;
    assert NamedRoots(addrs, 2) == NameRoot(TOP_BASE, st) == st;
    assert SteeredRoots(addrs, st, 1) == Some(st);
    assert SteeredRoots(addrs, st, 2) == Some(st);
    assert ZeroFilled(st.env, OVERLAP_VARS) == OVERLAP_ENV;
  }

  lemma OverlapPasses()
    ensures Passes(OVERLAP, OVERLAP_ENV)
  {
    var top: int := TWO64 - 8;
    var feet := [Foot(None, Some(2), false), Foot(Some((0, 8)), None, false), Foot(Some((top, 8)), None, false)];
    assert Eval(LOW_BASE, OVERLAP_ENV) == Some(0);
    assert Eval(TOP_BASE, OVERLAP_ENV) == Some(top);
    assert FeetRight(OVERLAP, OVERLAP_ENV, feet);
    assert NoClash(feet);
  }

  lemma OverlapMeets()
    ensures !SeparateCells(LOW, TOP, Total(OVERLAP_ENV))
  {
    var env := Total(OVERLAP_ENV);
    var top: u64 := TWO64 - 8;
    assert Mean(LOW_BASE, env) == 0;
    assert Mean(TOP_BASE, env) == top;
    assert CellAddr(LOW, env) == top && CellAddr(TOP, env) == top;
    assert InFoot(top, top, 8);
  }

  /** The condition is needed. For this precondition the passes return an assignment that passes the
      check: the clamp puts the first cell at address 0. The machine has both cells at 2^64 - 8, and
      no machine state satisfies the precondition. */
  lemma ClampMissesOverlap()
    ensures Assigned(OVERLAP, OVERLAP_VARS) == Some(OVERLAP_ENV) && Passes(OVERLAP, OVERLAP_ENV)
    ensures forall c :: !PreHolds(OVERLAP, Total(OVERLAP_ENV), c)
  {
    hide Assigned, Passes;
    OverlapAssigned();
    OverlapPasses();
    OverlapMeets();
    hide SeparateCells;
    SeparatedIff(OVERLAP, Total(OVERLAP_ENV));
    hide Separated;
    assert OVERLAP[1] == MemAtom(LOW) && OVERLAP[2] == MemAtom(TOP);
    assert !AtomApart(OVERLAP[1], OVERLAP[2], Total(OVERLAP_ENV));
  }

  // ----- when the check is sure to succeed -----

  lemma {:induction false} VarRootIsCanon(e: Expr, acc: i64)
    requires CanonRootExpr(e, acc).root.Some? && CanonRootExpr(e, acc).root.value.IsVar()
    ensures CanonGo(e, acc) == Some(Canon(VarRoot(CanonRootExpr(e, acc).root.value.name), CanonRootExpr(e, acc).disp))
  {
    hide Peel, WrapI;
    match e
    case ToU64(inner) => VarRootIsCanon(inner, acc);
    case Binary(_, _, _) => VarRootIsCanon(Peel(e).value.rest, WrapI(acc + Peel(e).value.shift));
    case _ =>
  }

  /** The root does not depend on the displacement collected so far. */
  lemma {:induction false} RootAnywhere(e: Expr, a: i64, b: i64)
    ensures CanonRootExpr(e, a).root == CanonRootExpr(e, b).root
  {
    hide Peel, WrapI;
    match e
    case ToU64(inner) => RootAnywhere(inner, a, b);
    case Binary(_, _, _) =>
      if Peel(e).Some? {
        var p := Peel(e).value;
        RootAnywhere(p.rest, WrapI(a + p.shift), WrapI(b + p.shift));
      }
    case _ =>
  }

  lemma CellRootName(c: MemCell)
    requires VarRooted(c.base) && c.delta < 8
    ensures CellCanon(c).root == VarRoot(AddressRoot(c.base).value.name)
  {
    hide CanonRootExpr, CanonGo;
    RootAnywhere(c.base, 0, c.off + c.delta);
    VarRootIsCanon(c.base, c.off + c.delta);
  }

  /** A cell within one step of its root's base lies exactly there, inside the address space. */
  lemma CellAtBase(c: MemCell, env: Assignment, b: u64)
    requires c.delta < 8 && RootValue(CellCanon(c).root, env) == b
    requires 0 <= CellCanon(c).disp && CellCanon(c).disp + Len(c.width) <= BASE_STEP
    requires FIRST_BASE <= b && b + BASE_STEP <= TWO64 - 0x1_0000
    ensures CellAddr(c, env) == b + CellCanon(c).disp && InSpace(MemAtom(c), env)
  {
    hide Mean, CanonAddr, WrapU, RootValue;
    CellOnRoot(c, env);
    var p: int, at: int := Mean(c.base, env) + c.off + c.delta, b + CellCanon(c).disp;
    WrapIsCong(p);
    WrapId(at);
    CongIffMultiple(p, at);
    ExactAddress(p, at);
  }

  lemma ExactAddress(p: int, at: int)
    requires (p - at) % TWO64 == 0
    requires -0x8000 <= p <= TWO64 + 0x8008 && 0x1_0000 <= at <= TWO64 - 0x1_0000
    ensures p == at
  {
    var q := (p - at) / TWO64;
    assert p - at == q * TWO64;
  }

  ghost predicate NearRoot(a: Atom) {
    a.MemAtom? ==>
      VarRooted(a.cell.base) && 0 <= CellCanon(a.cell).disp && CellCanon(a.cell).disp + Len(a.cell.width) <= BASE_STEP
  }

  /** Both cells near their roots' bases and not overlapping: no clash. */
  lemma NearCellsApart(c: MemCell, d: MemCell, env: Env, b: u64, e: u64)
    requires FootOf(MemAtom(c), env).Some? && FootOf(MemAtom(d), env).Some? && c.delta < 8 && d.delta < 8
    requires NearRoot(MemAtom(c)) && NearRoot(MemAtom(d))
    requires RootValue(CellCanon(c).root, Total(env)) == b && RootValue(CellCanon(d).root, Total(env)) == e
    requires FIRST_BASE <= b && b + BASE_STEP <= TWO64 - 0x1_0000 && FIRST_BASE <= e && e + BASE_STEP <= TWO64 - 0x1_0000
    requires b + BASE_STEP <= e || e + BASE_STEP <= b
             || (b == e && !(CellCanon(c).disp < CellCanon(d).disp + Len(d.width)
                             && CellCanon(d).disp < CellCanon(c).disp + Len(c.width)))
    ensures !Clash(FootOf(MemAtom(c), env).value, FootOf(MemAtom(d), env).value)
  {
    hide Mean, Eval, CanonAddr, WrapU, RootValue, CellAddr, InSpace, Eff, End;
    CellAtBase(c, Total(env), b);
    CellAtBase(d, Total(env), e);
    FootInSpace(c, env);
    FootInSpace(d, env);
  }

  lemma {:induction false} NothingDerived(addrs: seq<Expr>, st: Steering, k: nat)
    requires k <= |addrs| && forall i :: 0 <= i < k ==> VarRooted(addrs[i])
    ensures SteeredRoots(addrs, st, k) == Some(st)
  {
    hide AddressRoot;
    if k > 0 {
      NothingDerived(addrs, st, k - 1);
    }
  }

  lemma {:induction false} AddressOf(pre: seq<Atom>, i: nat) returns (k: nat)
    requires i < |pre| && pre[i].MemAtom?
    ensures k < |AddressExprs(pre)| && AddressExprs(pre)[k] == pre[i].cell.base
  {
    if i == |pre| - 1 {
      k := |AddressExprs(pre)| - 1;
    } else {
      k := AddressOf(pre[..|pre| - 1], i);
    }
  }

  lemma {:induction false} AddressSource(pre: seq<Atom>, k: nat) returns (i: nat)
    requires k < |AddressExprs(pre)|
    ensures i < |pre| && pre[i].MemAtom? && pre[i].cell.base == AddressExprs(pre)[k]
  {
    var init := pre[..|pre| - 1];
    if k < |AddressExprs(init)| {
      i := AddressSource(init, k);
    } else {
      i := |pre| - 1;
    }
  }

  /** With variable roots only, the passes succeed and each root has the base of its turn. */
  lemma VariableBases(pre: seq<Atom>, vars: seq<Name>)
    requires forall i :: 0 <= i < |pre| ==> NearRoot(pre[i])
    ensures BothPasses(AddressExprs(pre)).Some? && Assigned(pre, vars).Some?
  {
    hide AddressRoot, CanonAddr, SteeredRoots, NamedRoots;
    var addrs := AddressExprs(pre);
    forall k | 0 <= k < |addrs|
      ensures VarRooted(addrs[k])
    {
      var i := AddressSource(pre, k);
      assert NearRoot(pre[i]);
    }
    NothingDerived(addrs, NamedRoots(addrs, |addrs|), |addrs|);
  }

  /** The turn of a cell's root, and its base. */
  lemma CellBase(pre: seq<Atom>, vars: seq<Name>, i: nat) returns (r: Expr)
    requires (forall k :: 0 <= k < |pre| ==> NearRoot(pre[k])) && i < |pre| && pre[i].MemAtom? && pre[i].cell.delta < 8
    requires BothPasses(AddressExprs(pre)).Some? && Assigned(pre, vars).Some?
    ensures var end, env := BothPasses(AddressExprs(pre)).value, Assigned(pre, vars).value;
            r in end.turn && r.IsVar() && CellCanon(pre[i].cell).root == VarRoot(r.name)
            && end.turn[r] < end.turns <= 2 * |AddressExprs(pre)|
            && RootValue(CellCanon(pre[i].cell).root, Total(env)) == Base(end.turn[r])
  {
    hide AddressRoot, CanonAddr, SteeredRoots, NamedRoots, Base, DerivedRoots, ZeroFilled;
    var addrs := AddressExprs(pre);
    var k := AddressOf(pre, i);
    assert NearRoot(pre[i]);
    CellRootName(pre[i].cell);
    RootsKeepBases(addrs, vars, k);
    var end, env := BothPasses(addrs).value, Assigned(pre, vars).value;
    var n := AddressRoot(addrs[k]).value.name;
    r :| r in end.turn && r.IsVar() && r.name == n && env[n] == Base(end.turn[r]);
    assert Eval(r, env) == Some(Base(end.turn[r]));
  }

  lemma BaseInRange(t: nat, turns: nat)
    requires t < turns && FIRST_BASE + BASE_STEP * (turns + 1) <= TWO64 - 0x1_0000
    ensures Base(t) == FIRST_BASE + BASE_STEP * t && Base(t) + BASE_STEP <= TWO64 - 0x1_0000
  {
    WrapId(FIRST_BASE + BASE_STEP * t);
  }

  lemma TurnsApart(t: nat, u: nat, turns: nat)
    requires t < turns && u < turns && t != u && FIRST_BASE + BASE_STEP * (turns + 1) <= TWO64 - 0x1_0000
    ensures Base(t) + BASE_STEP <= Base(u) || Base(u) + BASE_STEP <= Base(t)
  {
    hide Base;
    if t < u {
      BasesApart(t, u);
    } else {
      BasesApart(u, t);
    }
  }

  lemma PathAtoms(prog: seq<Insn>, hot: seq<Region>, splits: map<(Root, int), int>)
    requires SymRun(prog, Start(hot, splits)).s.errors == []
    ensures var s := SymRun(prog, Start(hot, splits)).s; NameInv(s) && SpanInv(s.spans, s.mem) && AtomsMatch(s.pre, s.mem)
  {
    hide SymRun, NameInv, SpanInv, AtomsMatch;
    StartWf(hot, splits);
    RunWf(prog, Start(hot, splits));
  }

  lemma PairClashFree(s: Sym, vars: seq<Name>, i: nat, j: nat)
    requires NameInv(s) && SpanInv(s.spans, s.mem) && AtomsMatch(s.pre, s.mem)
    requires forall k :: 0 <= k < |s.pre| ==> NearRoot(s.pre[k])
    requires BothPasses(AddressExprs(s.pre)).Some? && Assigned(s.pre, vars).Some?
    requires FIRST_BASE + BASE_STEP * (2 * |AddressExprs(s.pre)| + 1) <= TWO64 - 0x1_0000
    requires i < j < |s.pre|
    requires FootOf(s.pre[i], Assigned(s.pre, vars).value).Some? && FootOf(s.pre[j], Assigned(s.pre, vars).value).Some?
    ensures var env := Assigned(s.pre, vars).value;
            !Clash(FootOf(s.pre[i], env).value, FootOf(s.pre[j], env).value)
  {
    hide Assigned, Eval, CanonAddr, Base, WrapU, AddressExprs, BothPasses, Eff, End, Mean;
    var a, b := s.pre[i], s.pre[j];
    assert AtomNamed(a, s) && AtomNamed(b, s);
    if a.MemAtom? && b.MemAtom? {
      MemoryPairClashFree(s, vars, i, j);
    }
  }

  lemma MemoryPairClashFree(s: Sym, vars: seq<Name>, i: nat, j: nat)
    requires SpanInv(s.spans, s.mem) && AtomsMatch(s.pre, s.mem)
    requires forall k :: 0 <= k < |s.pre| ==> NearRoot(s.pre[k])
    requires BothPasses(AddressExprs(s.pre)).Some? && Assigned(s.pre, vars).Some?
    requires FIRST_BASE + BASE_STEP * (2 * |AddressExprs(s.pre)| + 1) <= TWO64 - 0x1_0000
    requires i < j < |s.pre| && s.pre[i].MemAtom? && s.pre[j].MemAtom?
    requires FootOf(s.pre[i], Assigned(s.pre, vars).value).Some? && FootOf(s.pre[j], Assigned(s.pre, vars).value).Some?
    ensures var env := Assigned(s.pre, vars).value;
            !Clash(FootOf(s.pre[i], env).value, FootOf(s.pre[j], env).value)
  {
    hide Assigned, Eval, CanonAddr, Base, WrapU, AddressExprs, BothPasses, FootOf, Clash, RootValue, MemCells, SpanFor;
    var c, d := s.pre[i].cell, s.pre[j].cell;
    var env, end := Assigned(s.pre, vars).value, BothPasses(AddressExprs(s.pre)).value;
    CellPlace(s.pre, i);
    CellPlace(s.pre, j);
    CellPlacesDiffer(s.pre, i, j);
    var k, l := |MemCells(s.pre[..i])|, |MemCells(s.pre[..j])|;
    assert SameKey(MemCells(s.pre)[k], s.mem[k]) && SameKey(MemCells(s.pre)[l], s.mem[l]);
    assert NearRoot(s.pre[i]) && NearRoot(s.pre[j]);
    var r := CellBase(s.pre, vars, i);
    var q := CellBase(s.pre, vars, j);
    BaseInRange(end.turn[r], end.turns);
    BaseInRange(end.turn[q], end.turns);
    if CellCanon(c).root == CellCanon(d).root {
      RecordedApart(s.spans, s.mem, k, l);
    } else {
      DistinctTurns(s.pre, vars, r, q);
      TurnsApart(end.turn[r], end.turn[q], end.turns);
    }
    NearCellsApart(c, d, env, Base(end.turn[r]), Base(end.turn[q]));
  }

  lemma NearInSpace(s: Sym, vars: seq<Name>, i: nat)
    requires SpanInv(s.spans, s.mem) && AtomsMatch(s.pre, s.mem)
    requires (forall k :: 0 <= k < |s.pre| ==> NearRoot(s.pre[k])) && i < |s.pre|
    requires BothPasses(AddressExprs(s.pre)).Some? && Assigned(s.pre, vars).Some?
    requires FIRST_BASE + BASE_STEP * (2 * |AddressExprs(s.pre)| + 1) <= TWO64 - 0x1_0000
    ensures InSpace(s.pre[i], Total(Assigned(s.pre, vars).value))
  {
    hide Assigned, Eval, CanonAddr, Base, WrapU, AddressExprs, BothPasses, RootValue, MemCells, SpanFor, Mean;
    if s.pre[i].MemAtom? {
      var end := BothPasses(AddressExprs(s.pre)).value;
      CellPlace(s.pre, i);
      assert SameKey(MemCells(s.pre)[|MemCells(s.pre[..i])|], s.mem[|MemCells(s.pre[..i])|]);
      assert NearRoot(s.pre[i]);
      var r := CellBase(s.pre, vars, i);
      BaseInRange(end.turn[r], end.turns);
      CellAtBase(s.pre[i].cell, Total(Assigned(s.pre, vars).value), Base(end.turn[r]));
    }
  }

  lemma DistinctTurns(pre: seq<Atom>, vars: seq<Name>, r: Expr, q: Expr)
    requires BothPasses(AddressExprs(pre)).Some? && |AddressExprs(pre)| > 0 && r != q
    requires r in BothPasses(AddressExprs(pre)).value.turn && q in BothPasses(AddressExprs(pre)).value.turn
    ensures BothPasses(AddressExprs(pre)).value.turn[r] != BothPasses(AddressExprs(pre)).value.turn[q]
  {
    hide AddressExprs, BothPasses, Base, Eval, DerivedRoots, ZeroFilled, SteeredRoots, NamedRoots, AddressRoot;
    RootsKeepBases(AddressExprs(pre), vars, 0);
  }

  // ----- which addresses evaluate -----

  /** No frame offset runs past the end of the address space: these sums alone are not reduced. */
  ghost predicate SumsFit(e: Expr, env: Assignment) {
    match e
    case ToU64(a) => SumsFit(a, env)
    case Binary(op, a, b) => (op.NatAdd? ==> Mean(a, env) + Mean(b, env) < TWO64) && SumsFit(a, env) && SumsFit(b, env)
    case _ => true
  }

  lemma {:induction false} ConstEvaluates(e: Expr, ns: set<Name>, env: Env)
    requires ConstOf(e).Some? && Known(e, ns)
    ensures Eval(e, env).Some? && SumsFit(e, Total(env))
  {
    match e
    case ToU64(a) =>
      if !a.Const? {
        ConstEvaluates(a, ns, env);
      }
    case _ =>
  }

  lemma SumEvaluates(e: Expr, env: Env)
    requires e.Binary? && (e.bop.WrapAdd? || e.bop.WrapSub? || e.bop.NatAdd?)
    ensures Eval(e, env).Some?
            <==> Eval(e.x, env).Some? && Eval(e.y, env).Some?
                 && (e.bop.NatAdd? ==> Mean(e.x, Total(env)) + Mean(e.y, Total(env)) < TWO64)
  {
    hide Mean;
    MeanExtends(e.x, env, Total(env));
    MeanExtends(e.y, env, Total(env));
  }

  /** An address with a variable root evaluates if and only if its frame offsets fit. */
  lemma {:induction false} VarRootEvaluates(e: Expr, acc: i64, ns: set<Name>, env: Env)
    requires CanonRootExpr(e, acc).root.Some? && CanonRootExpr(e, acc).root.value.IsVar()
    requires Known(e, ns) && forall n :: n in ns ==> n in env
    ensures Eval(e, env).Some? <==> SumsFit(e, Total(env))
  {
    hide Mean, WrapI, WrapU;
    match e
    case ToU64(a) => VarRootEvaluates(a, acc, ns, env);
    case Binary(_, x, y) =>
      var p := Peel(e).value;
      VarRootEvaluates(p.rest, WrapI(acc + p.shift), ns, env);
      SumEvaluates(e, env);
      if ConstOf(y).Some? {
        ConstEvaluates(y, ns, env);
      } else {
        ConstEvaluates(x, ns, env);
      }
    case _ =>
  }

  /** The names of the precondition are bound. */
  lemma NamesAssigned(pre: seq<Atom>, vars: seq<Name>)
    requires Assigned(pre, vars).Some? && forall n :: n in NamesOf(pre) ==> n in vars
    ensures forall n :: n in NamesOf(pre) ==> n in Assigned(pre, vars).value
  {
    hide NamesOf, BothPasses, AddressExprs, ZeroFilled;
    FillExtends(BothPasses(AddressExprs(pre)).value.env, vars);
  }

  lemma FootEvaluatesIff(s: Sym, env: Env, i: nat)
    requires NameInv(s) && BasesKnown(s.pre) && i < |s.pre| && NearRoot(s.pre[i])
    requires forall n :: n in NamesOf(s.pre) ==> n in env
    ensures FootOf(s.pre[i], env).Some? <==> (s.pre[i].MemAtom? ==> SumsFit(s.pre[i].cell.base, Total(env)))
  {
    hide SumsFit, Known, CanonAddr, CanonRootExpr, Mean, NamesOf;
    var a := s.pre[i];
    assert AtomNamed(a, s);
    NameListed(s.pre, i);
    if a.MemAtom? {
      NamesGrow(s.pre[..i], s.pre);
      VarRootEvaluates(a.cell.base, 0, NamesOf(s.pre[..i]), env);
    }
  }

  lemma NameListed(pre: seq<Atom>, i: nat)
    requires i < |pre| && AtomName(pre[i]).Some?
    ensures AtomName(pre[i]).value in NamesOf(pre)
  {
  }

  /** When the check succeeds on a lifted path whose cells all hang off variables: without overlap
      errors, with every cell within one step of its root and few enough roots, the assignment of
      the passes passes if and only if no frame offset in an address runs past the end of the
      address space, and then some machine state satisfies the precondition. */
  lemma VariableRootsPassIff(prog: seq<Insn>, hot: seq<Region>, splits: map<(Root, int), int>, vars: seq<Name>)
    requires var s := SymRun(prog, Start(hot, splits)).s;
             s.errors == [] && (forall i :: 0 <= i < |s.pre| ==> NearRoot(s.pre[i]))
             && FIRST_BASE + BASE_STEP * (2 * |AddressExprs(s.pre)| + 1) <= TWO64 - 0x1_0000
             && (forall n :: n in NamesOf(s.pre) ==> n in vars)
    ensures var s := SymRun(prog, Start(hot, splits)).s;
            Assigned(s.pre, vars).Some?
            && var env := Assigned(s.pre, vars).value;
               (Passes(s.pre, env)
                <==> forall i :: 0 <= i < |s.pre| && s.pre[i].MemAtom? ==> SumsFit(s.pre[i].cell.base, Total(env)))
               && (Passes(s.pre, env) ==> exists c :: PreHolds(s.pre, Total(env), c))
  {
    hide InSpace, PreHolds, SymRun, NearRoot, Assigned, BothPasses, FootOf, Clash, NameInv, SpanInv, AtomsMatch, AddressExprs,
      SumsFit, NamesOf, BasesKnown, RegsKnown, CellsKnown, FramesKnown;
    var s := SymRun(prog, Start(hot, splits)).s;
    PathAtoms(prog, hot, splits);
    StartKnown(hot, splits);
    RunKnown(prog, Start(hot, splits));
    VariableBases(s.pre, vars);
    NamesAssigned(s.pre, vars);
    var env := Assigned(s.pre, vars).value;
    forall i | 0 <= i < |s.pre|
      ensures FootOf(s.pre[i], env).Some? <==> (s.pre[i].MemAtom? ==> SumsFit(s.pre[i].cell.base, Total(env)))
    {
      FootEvaluatesIff(s, env, i);
    }
    if forall i :: 0 <= i < |s.pre| ==> FootOf(s.pre[i], env).Some? {
      VariableRootsFeet(s, vars);
    }
  }

  lemma VariableRootsFeet(s: Sym, vars: seq<Name>)
    requires NameInv(s) && SpanInv(s.spans, s.mem) && AtomsMatch(s.pre, s.mem)
    requires forall i :: 0 <= i < |s.pre| ==> NearRoot(s.pre[i])
    requires FIRST_BASE + BASE_STEP * (2 * |AddressExprs(s.pre)| + 1) <= TWO64 - 0x1_0000
    requires BothPasses(AddressExprs(s.pre)).Some? && Assigned(s.pre, vars).Some?
    requires forall i :: 0 <= i < |s.pre| ==> FootOf(s.pre[i], Assigned(s.pre, vars).value).Some?
    ensures Passes(s.pre, Assigned(s.pre, vars).value)
    ensures exists c :: PreHolds(s.pre, Total(Assigned(s.pre, vars).value), c)
  {
    hide InSpace, PreHolds, NearRoot, Assigned, BothPasses, FootOf, Clash, NameInv, SpanInv, AtomsMatch, AddressExprs;
    var env := Assigned(s.pre, vars).value;
    var feet := seq(|s.pre|, i requires 0 <= i < |s.pre| => FootOf(s.pre[i], env).value);
    forall i, j | 0 <= i < j < |feet|
      ensures !Clash(feet[i], feet[j])
    {
      PairClashFree(s, vars, i, j);
    }
    assert FeetRight(s.pre, env, feet) && NoClash(feet);
    forall i | 0 <= i < |s.pre|
      ensures InSpace(s.pre[i], Total(env))
    {
      NearInSpace(s, vars, i);
    }
    WitnessInSpaceSatisfies(s.pre, env);
  }

  /** The expression holds no frame offset. */
  predicate NoFrameOffset(e: Expr) {
    match e
    case ToU64(a) => NoFrameOffset(a)
    case Binary(op, a, b) => !op.NatAdd? && NoFrameOffset(a) && NoFrameOffset(b)
    case _ => true
  }

  lemma {:induction false} NoFrameOffsetFits(e: Expr, env: Assignment)
    requires NoFrameOffset(e)
    ensures SumsFit(e, env)
  {
    match e
    case ToU64(a) => NoFrameOffsetFits(a, env);
    case Binary(_, a, b) =>
      NoFrameOffsetFits(a, env);
      NoFrameOffsetFits(b, env);
    case _ =>
  }

  /** So the check is sure to succeed when no address mentions a callee's frame. */
  lemma VariableRootsPass(prog: seq<Insn>, hot: seq<Region>, splits: map<(Root, int), int>, vars: seq<Name>)
    requires var s := SymRun(prog, Start(hot, splits)).s;
             s.errors == [] && (forall i :: 0 <= i < |s.pre| ==> NearRoot(s.pre[i]))
             && FIRST_BASE + BASE_STEP * (2 * |AddressExprs(s.pre)| + 1) <= TWO64 - 0x1_0000
             && (forall n :: n in NamesOf(s.pre) ==> n in vars)
             && (forall i :: 0 <= i < |s.pre| && s.pre[i].MemAtom? ==> NoFrameOffset(s.pre[i].cell.base))
    ensures var s := SymRun(prog, Start(hot, splits)).s;
            Assigned(s.pre, vars).Some? && Passes(s.pre, Assigned(s.pre, vars).value)
            && exists c :: PreHolds(s.pre, Total(Assigned(s.pre, vars).value), c)
  {
    hide SymRun, NearRoot, Assigned, Passes, PreHolds, NamesOf, AddressExprs, NoFrameOffset, SumsFit;
    VariableRootsPassIff(prog, hot, splits, vars);
    var s := SymRun(prog, Start(hot, splits)).s;
    forall i | 0 <= i < |s.pre| && s.pre[i].MemAtom?
      ensures SumsFit(s.pre[i].cell.base, Total(Assigned(s.pre, vars).value))
    {
      NoFrameOffsetFits(s.pre[i].cell.base, Total(Assigned(s.pre, vars).value));
    }
  }
}
