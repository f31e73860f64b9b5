/** The satisfiability witness of a precondition (`build_sat_witness`): far-apart bases for the
    address roots, zero for the rest, and a check that no two atoms overlap. */
module SatWitness {
  import opened Words
  import opened SymExpr
  import opened SymModel
  import opened LiftSound
  import opened Branch
  import opened UnionFind
  import opened BranchWitness

  const FIRST_BASE: int := 0x4_0000_0000
  const BASE_STEP: int := 0x1000_0000

  /** The base handed out at turn `i`; the allocator's counter is a 64-bit word. */
  function Base(i: nat): u64 {
    WrapU(FIRST_BASE + BASE_STEP * i)
  }

  /** Bases of different turns are a step apart, up to the end of the address space. */
  lemma BasesApart(i: nat, j: nat)
    requires i < j && FIRST_BASE + BASE_STEP * j < TWO64
    ensures Base(i) + BASE_STEP <= Base(j)
  {
  }

  function AddressRoot(e: Expr): Option<Expr> {
    CanonRootExpr(e, 0).root
  }

  /** The base expressions of the memory atoms, in order. */
  function AddressExprs(pre: seq<Atom>): seq<Expr> {
    if |pre| == 0 then []
    else
      AddressExprs(pre[..|pre| - 1])
      + (if pre[|pre| - 1].MemAtom? then [pre[|pre| - 1].cell.base] else [])
  }

  // ----- what the passes assign -----

  /** An assignment, the number of bases handed out, and the turn at which each root got one. */
  datatype Steering = Steering(env: Env, turns: nat, turn: map<Expr, nat>)

  const UNSTEERED: Steering := Steering(map[], 0, map[])

  predicate VarRooted(e: Expr) {
    AddressRoot(e).Some? && AddressRoot(e).value.IsVar()
  }

  predicate DerivedRooted(e: Expr) {
    AddressRoot(e).Some? && !AddressRoot(e).value.IsVar()
  }

  /** A variable root without a value gets the next base. */
  function NameRoot(e: Expr, st: Steering): Steering {
    if VarRooted(e) && AddressRoot(e).value.name !in st.env then
      var root := AddressRoot(e).value;
      Steering(st.env[root.name := Base(st.turns)], st.turns + 1, st.turn[root := st.turns])
    else st
  }

  /** Pass 1 over the first `k` addresses. */
  function NamedRoots(addrs: seq<Expr>, k: nat): Steering
    requires k <= |addrs|
  {
    if k == 0 then UNSTEERED else NameRoot(addrs[k - 1], NamedRoots(addrs, k - 1))
  }

  /** The derived roots of the first `k` addresses. */
  function DerivedRoots(addrs: seq<Expr>, k: nat): set<Expr>
    requires k <= |addrs|
  {
    if k == 0 then {}
    else DerivedRoots(addrs, k - 1) + (if DerivedRooted(addrs[k - 1]) then {AddressRoot(addrs[k - 1]).value} else {})
  }

  /** A derived root met for the first time and without a value is steered to the next base. */
  function SteerRoot(e: Expr, met: set<Expr>, st: Steering): Option<Steering> {
    if !DerivedRooted(e) || AddressRoot(e).value in met || Eval(AddressRoot(e).value, st.env).Some? then Some(st)
    else
      var root := AddressRoot(e).value;
      var s := Solve(root, Base(st.turns), st.env);
      if s.ok then Some(Steering(s.env, st.turns + 1, st.turn[root := st.turns])) else None
  }

  /** Pass 2 over the first `k` addresses. */
  function SteeredRoots(addrs: seq<Expr>, st0: Steering, k: nat): Option<Steering>
    requires k <= |addrs|
  {
    if k == 0 then Some(st0)
    else
      match SteeredRoots(addrs, st0, k - 1)
      case None => None
      case Some(st) => SteerRoot(addrs[k - 1], DerivedRoots(addrs, k - 1), st)
  }

  function BothPasses(addrs: seq<Expr>): Option<Steering> {
    SteeredRoots(addrs, NamedRoots(addrs, |addrs|), |addrs|)
  }

  // ----- what every steered root keeps -----

  /** Each root that was given a base evaluates to it, and no two got the same turn. */
  ghost predicate Steers(st: Steering) {
    (forall r :: r in st.turn ==> st.turn[r] < st.turns && Eval(r, st.env) == Some(Base(st.turn[r])))
    && forall r, s :: r in st.turn && s in st.turn && st.turn[r] == st.turn[s] ==> r == s
  }

  /** Extending the assignment undoes no earlier choice. */
  lemma SteersExtends(st: Steering, env: Env)
    requires Steers(st) && Extends(st.env, env)
    ensures Steers(st.(env := env))
  {
    hide Eval, Base, Extends;
    forall r | r in st.turn
      ensures Eval(r, env) == Some(Base(st.turn[r]))
    {
      EvalMonotone(r, st.env, env);
    }
  }

  lemma SteersMore(st: Steering, env: Env, root: Expr)
    requires Steers(st) && Extends(st.env, env)
    requires root !in st.turn && Eval(root, env) == Some(Base(st.turns))
    ensures Steers(Steering(env, st.turns + 1, st.turn[root := st.turns]))
  {
    hide Eval, Base, Extends;
    SteersExtends(st, env);
  }

  /** The bound variables are exactly the named ones. */
  ghost predicate NamesTurn(st: Steering) {
    (forall n :: n in st.env ==> InitReg(n) in st.turn || InitMem(n) in st.turn)
    && forall r :: r in st.turn ==> r.IsVar() && r.name in st.env
  }

  lemma {:induction false} NamedRootsOk(addrs: seq<Expr>, k: nat)
    requires k <= |addrs|
    ensures var st := NamedRoots(addrs, k);
            st.turns <= k && Steers(st) && NamesTurn(st)
            && forall i :: 0 <= i < k && VarRooted(addrs[i]) ==> AddressRoot(addrs[i]).value.name in st.env
    ensures k > 0 ==> Extends(NamedRoots(addrs, k - 1).env, NamedRoots(addrs, k).env)
  {
    hide AddressRoot, Base, Steers;
    if k == 0 {
      NothingSteered();
    } else {
      NamedRootsOk(addrs, k - 1);
      var st, e := NamedRoots(addrs, k - 1), addrs[k - 1];
      if VarRooted(e) && AddressRoot(e).value.name !in st.env {
        var root := AddressRoot(e).value;
        SteersMore(st, st.env[root.name := Base(st.turns)], root);
      }
    }
  }

  lemma NothingSteered()
    ensures Steers(UNSTEERED)
  {
  }

  ghost predicate MetHaveTurns(addrs: seq<Expr>, st: Steering, k: nat)
    requires k <= |addrs|
  {
    (forall r :: r in DerivedRoots(addrs, k) ==> Eval(r, st.env).Some?)
    && forall r :: r in st.turn ==> r.IsVar() || r in DerivedRoots(addrs, k)
  }

  lemma {:induction false} SteeredRootsOk(addrs: seq<Expr>, st0: Steering, k: nat)
    requires k <= |addrs| && Steers(st0) && (forall r :: r in st0.turn ==> r.IsVar())
    requires SteeredRoots(addrs, st0, k).Some?
    ensures var st := SteeredRoots(addrs, st0, k).value;
            Steers(st) && MetHaveTurns(addrs, st, k) && Extends(st0.env, st.env)
            && st0.turns <= st.turns <= st0.turns + k
            && forall r :: r in st0.turn ==> r in st.turn && st.turn[r] == st0.turn[r]
    ensures k > 0 ==> SteeredRoots(addrs, st0, k - 1).Some?
                      && Extends(SteeredRoots(addrs, st0, k - 1).value.env, SteeredRoots(addrs, st0, k).value.env)
                      && forall r :: r in SteeredRoots(addrs, st0, k - 1).value.turn ==>
                           r in SteeredRoots(addrs, st0, k).value.turn
                           && SteeredRoots(addrs, st0, k).value.turn[r] == SteeredRoots(addrs, st0, k - 1).value.turn[r]
  {
    hide AddressRoot, Base, Steers, Extends, Eval;
    if k == 0 {
      ExtendsRefl(st0.env);
    } else {
      SteeredRootsOk(addrs, st0, k - 1);
      var st := SteeredRoots(addrs, st0, k - 1).value;
      ExtendsRefl(st.env);
      SteerRootOk(addrs, st, k - 1);
      ExtendsTrans(st0.env, st.env, SteeredRoots(addrs, st0, k).value.env);
    }
  }

  lemma SteerRootOk(addrs: seq<Expr>, st: Steering, k: nat)
    requires k < |addrs| && Steers(st) && MetHaveTurns(addrs, st, k)
    requires SteerRoot(addrs[k], DerivedRoots(addrs, k), st).Some?
    ensures var st' := SteerRoot(addrs[k], DerivedRoots(addrs, k), st).value;
            Steers(st') && MetHaveTurns(addrs, st', k + 1) && Extends(st.env, st'.env)
            && st.turns <= st'.turns <= st.turns + 1
            && forall r :: r in st.turn ==> r in st'.turn && st'.turn[r] == st.turn[r]
  {
    hide AddressRoot, Base, Steers, Extends, Eval, Solve;
    var e := addrs[k];
    var st' := SteerRoot(e, DerivedRoots(addrs, k), st).value;
    ExtendsRefl(st.env);
    if DerivedRooted(e) {
      var root := AddressRoot(e).value;
      if root !in DerivedRoots(addrs, k) && Eval(root, st.env).None? {
        SolveSound(root, Base(st.turns), st.env);
        SteersMore(st, st'.env, root);
      }
    }
    forall r | r in DerivedRoots(addrs, k + 1)
      ensures Eval(r, st'.env).Some?
    {
      if r in DerivedRoots(addrs, k) {
        EvalMonotone(r, st.env, st'.env);
      }
    }
  }

  lemma ExtendsRefl(env: Env)
    ensures Extends(env, env)
  {
  }

  lemma {:induction false} LaterSteering(addrs: seq<Expr>, st0: Steering, i: nat, k: nat)
    requires i <= k <= |addrs| && Steers(st0) && (forall r :: r in st0.turn ==> r.IsVar())
    requires SteeredRoots(addrs, st0, k).Some?
    ensures SteeredRoots(addrs, st0, i).Some?
    ensures var st, st' := SteeredRoots(addrs, st0, i).value, SteeredRoots(addrs, st0, k).value;
            Extends(st.env, st'.env) && forall r :: r in st.turn ==> r in st'.turn && st'.turn[r] == st.turn[r]
    decreases k
  {
    hide SteerRoot, Steers, Extends, MetHaveTurns;
    SteeredRootsOk(addrs, st0, k);
    if i < k {
      LaterSteering(addrs, st0, i, k - 1);
      ExtendsTrans(SteeredRoots(addrs, st0, i).value.env, SteeredRoots(addrs, st0, k - 1).value.env, SteeredRoots(addrs, st0, k).value.env);
    } else {
      ExtendsRefl(SteeredRoots(addrs, st0, k).value.env);
    }
  }

  /** Which roots are steered, and to what. After both passes and the zero fill, for each address:
      a variable root has the base of its name's turn; a derived root met here for the first time
      either already had a value, and keeps it, or is steered to the base of this very turn. Every
      root that was given a base still evaluates to it, and different roots have different turns. */
  lemma RootsKeepBases(addrs: seq<Expr>, vars: seq<Name>, i: nat)
    requires BothPasses(addrs).Some? && i < |addrs|
    ensures var st0 := NamedRoots(addrs, |addrs|);
            var end := BothPasses(addrs).value;
            var env := ZeroFilled(end.env, vars);
            var e := addrs[i];
            Steers(end.(env := env)) && end.turns <= 2 * |addrs|
            && (VarRooted(e) ==>
                  var n := AddressRoot(e).value.name;
                  exists r :: r in end.turn && r.IsVar() && r.name == n && env[n] == Base(end.turn[r]))
            && (DerivedRooted(e) && AddressRoot(e).value !in DerivedRoots(addrs, i) ==>
                  var root := AddressRoot(e).value;
                  SteeredRoots(addrs, st0, i).Some?
                  && var st := SteeredRoots(addrs, st0, i).value;
                     match Eval(root, st.env)
                     case Some(v) => Eval(root, env) == Some(v)
                     case None => root in end.turn && end.turn[root] == st.turns && Eval(root, env) == Some(Base(st.turns)))
  {
    hide AddressRoot, Base, Eval, Solve, Extends;
    var n := |addrs|;
    var st0, end := NamedRoots(addrs, n), BothPasses(addrs).value;
    var env := ZeroFilled(end.env, vars);
    NamedRootsOk(addrs, n);
    SteeredRootsOk(addrs, st0, n);
    FillExtends(end.env, vars);
    SteersExtends(end, env);
    var e := addrs[i];
    if VarRooted(e) {
      VarRootBase(addrs, env, i);
    }
    if DerivedRooted(e) && AddressRoot(e).value !in DerivedRoots(addrs, i) {
      DerivedRootBase(addrs, env, i);
    }
  }

  lemma FillExtends(env: Env, vars: seq<Name>)
    ensures Extends(env, ZeroFilled(env, vars))
    ensures forall n :: n in vars ==> n in ZeroFilled(env, vars)
  {
  }

  lemma VarRootBase(addrs: seq<Expr>, env: Env, i: nat)
    requires BothPasses(addrs).Some? && i < |addrs| && VarRooted(addrs[i]) && Extends(BothPasses(addrs).value.env, env)
    ensures var end, n := BothPasses(addrs).value, AddressRoot(addrs[i]).value.name;
            n in env && exists r :: r in end.turn && r.IsVar() && r.name == n && env[n] == Base(end.turn[r])
  {
    hide AddressRoot, Base, Solve;
    var st0, end := NamedRoots(addrs, |addrs|), BothPasses(addrs).value;
    NamedRootsOk(addrs, |addrs|);
    SteeredRootsOk(addrs, st0, |addrs|);
    var n := AddressRoot(addrs[i]).value.name;
    var r := if InitReg(n) in st0.turn then InitReg(n) else InitMem(n);
    assert r in end.turn && Eval(r, end.env) == Some(Base(end.turn[r]));
  }

  lemma DerivedRootBase(addrs: seq<Expr>, env: Env, i: nat)
    requires BothPasses(addrs).Some? && i < |addrs| && Extends(BothPasses(addrs).value.env, env)
    requires DerivedRooted(addrs[i]) && AddressRoot(addrs[i]).value !in DerivedRoots(addrs, i)
    ensures var st0, end, root := NamedRoots(addrs, |addrs|), BothPasses(addrs).value, AddressRoot(addrs[i]).value;
            SteeredRoots(addrs, st0, i).Some?
            && var st := SteeredRoots(addrs, st0, i).value;
               match Eval(root, st.env)
               case Some(v) => Eval(root, env) == Some(v)
               case None => root in end.turn && end.turn[root] == st.turns && Eval(root, env) == Some(Base(st.turns))
  {
    hide AddressRoot, Base, Solve, Eval, Extends, DerivedRoots;
    var n := |addrs|;
    var st0, end, root := NamedRoots(addrs, n), BothPasses(addrs).value, AddressRoot(addrs[i]).value;
    NamedRootsOk(addrs, n);
    LaterSteering(addrs, st0, i, n);
    LaterSteering(addrs, st0, i + 1, n);
    var st, next := SteeredRoots(addrs, st0, i).value, SteeredRoots(addrs, st0, i + 1).value;
    if Eval(root, st.env).Some? {
      EvalMonotone(root, st.env, end.env);
      EvalMonotone(root, end.env, env);
    } else {
      assert next.turn[root] == st.turns;
      SteeredRootsOk(addrs, st0, n);
      EvalMonotone(root, end.env, env);
    }
  }

  /** Steering fails exactly at a first address whose derived root, new and without a value, cannot
      be steered to the next base under the assignment built so far. */
  lemma {:induction false} SteeringFailsIff(addrs: seq<Expr>, st0: Steering, k: nat)
    requires k <= |addrs|
    ensures SteeredRoots(addrs, st0, k).None? <==>
            exists i: nat :: i < k && SteeredRoots(addrs, st0, i).Some? && Stuck(addrs, SteeredRoots(addrs, st0, i).value, i)
  {
    hide AddressRoot, Base, Eval, Solve;
    if k > 0 {
      SteeringFailsIff(addrs, st0, k - 1);
      if SteeredRoots(addrs, st0, k).None? && SteeredRoots(addrs, st0, k - 1).Some? {
        assert Stuck(addrs, SteeredRoots(addrs, st0, k - 1).value, k - 1);
      }
    }
  }

  ghost predicate Stuck(addrs: seq<Expr>, st: Steering, i: nat)
    requires i < |addrs|
  {
    DerivedRooted(addrs[i]) && AddressRoot(addrs[i]).value !in DerivedRoots(addrs, i)
    && Eval(AddressRoot(addrs[i]).value, st.env).None?
    && !Solve(AddressRoot(addrs[i]).value, Base(st.turns), st.env).ok
  }

  // ----- the passes -----

  /** Pass 1: variable roots get bases directly. */
  method AssignVariables(addrs: seq<Expr>) returns (st: Steering)
    ensures st == NamedRoots(addrs, |addrs|)
  {
    hide AddressRoot, Base;
    st := UNSTEERED;
    var i := 0;
    while i < |addrs|
      invariant i <= |addrs| && st == NamedRoots(addrs, i)
    {
      var root := AddressRoot(addrs[i]);
      if root.Some? && root.value.IsVar() && root.value.name !in st.env {
        st := Steering(st.env[root.value.name := Base(st.turns)], st.turns + 1, st.turn[root.value := st.turns]);
      }
      i := i + 1;
    }
  }

  /** Pass 2: derived roots are steered through their one free variable. */
  method SteerRoots(addrs: seq<Expr>, st0: Steering) returns (r: Option<Steering>)
    ensures r == SteeredRoots(addrs, st0, |addrs|)
  {
    hide AddressRoot, Base, Eval, Solve;
    var st, met: set<Expr> := st0, {};
    var i := 0;
    while i < |addrs|
      invariant i <= |addrs| && met == DerivedRoots(addrs, i) && SteeredRoots(addrs, st0, i) == Some(st)
    {
      var root := AddressRoot(addrs[i]);
      if root.Some? && !root.value.IsVar() && root.value !in met {
        if Eval(root.value, st.env).None? {
          var s := Solve(root.value, Base(st.turns), st.env);
          if !s.ok {
            FailsOnward(addrs, st0, i + 1, |addrs|);
            return None;
          }
          st := Steering(s.env, st.turns + 1, st.turn[root.value := st.turns]);
        }
        met := met + {root.value};
      }
      i := i + 1;
    }
    r := Some(st);
  }

  lemma {:induction false} FailsOnward(addrs: seq<Expr>, st0: Steering, i: nat, k: nat)
    requires i <= k <= |addrs| && SteeredRoots(addrs, st0, i).None?
    ensures SteeredRoots(addrs, st0, k).None?
    decreases k
  {
    hide SteerRoot;
    if i < k {
      FailsOnward(addrs, st0, i, k - 1);
    }
  }

  /** The assignment of a precondition: both passes, then zeros. */
  function Assigned(pre: seq<Atom>, vars: seq<Name>): Option<Env> {
    match BothPasses(AddressExprs(pre))
    case None => None
    case Some(st) => Some(ZeroFilled(st.env, vars))
  }

  method AssignRoots(pre: seq<Atom>, vars: seq<Name>) returns (r: Option<Env>)
    ensures r == Assigned(pre, vars)
  {
    hide NamedRoots, SteeredRoots, AddressExprs;
    var addrs := AddressExprs(pre);
    var named := AssignVariables(addrs);
    var steered := SteerRoots(addrs, named);
    if steered.None? {
      return None;
    }
    var env := ZeroFill(steered.value.env, vars);
    r := Some(env);
  }

  // ----- footprints -----

  datatype Foot = Foot(mem: Option<(u64, nat)>, reg: Option<Reg>, callStack: bool)

  /** The witness's own address arithmetic: clamped at 0 instead of wrapping. */
  function Eff(base: u64, off: int, delta: nat): u64 {
    var a := if base + off < 0 then 0 else base + off;
    WrapU(a + delta)
  }

  function FootOf(a: Atom, env: Env): Option<Foot> {
    match a
    case RegAtom(r, v) => if Eval(v, env).None? then None else Some(Foot(None, Some(r), false))
    case MemAtom(c) =>
      if Eval(c.base, env).None? || Eval(c.value, env).None? then None
      else Some(Foot(Some((Eff(Eval(c.base, env).value, c.off, c.delta), Len(c.width))), None, false))
  }

  /** The end of a footprint, a 64-bit sum. */
  function End(m: (u64, nat)): u64 {
    WrapU(m.0 + m.1)
  }

  predicate Clash(x: Foot, y: Foot) {
    (x.mem.Some? && y.mem.Some?
     && x.mem.value.1 > 0 && y.mem.value.1 > 0
     && End(x.mem.value) > y.mem.value.0 && End(y.mem.value) > x.mem.value.0)
    || (x.reg.Some? && x.reg == y.reg)
    || (x.callStack && y.callStack)
  }

  ghost predicate NoClash(feet: seq<Foot>) {
    forall i, j :: 0 <= i < j < |feet| ==> !Clash(feet[i], feet[j])
  }

  method CheckFeet(feet: seq<Foot>) returns (ok: bool)
    ensures ok <==> NoClash(feet)
  {
    hide Clash;
    var i := 0;
    while i < |feet|
      invariant i <= |feet|
      invariant forall a, b :: 0 <= a < i && a < b < |feet| ==> !Clash(feet[a], feet[b])
    {
      var j := i + 1;
      while j < |feet|
        invariant i < j <= |feet|
        invariant forall b :: i < b < j ==> !Clash(feet[i], feet[b])
      {
        if Clash(feet[i], feet[j]) {
          return false;
        }
        j := j + 1;
      }
      i := i + 1;
    }
    ok := true;
  }

  /** The feet of all atoms, if every atom has its values. */
  ghost predicate FeetRight(pre: seq<Atom>, env: Env, feet: seq<Foot>) {
    |feet| == |pre| && forall i :: 0 <= i < |pre| ==> FootOf(pre[i], env) == Some(feet[i])
  }

  /** The assignment passes: every atom has its values under it and no two atoms clash. */
  ghost predicate Passes(pre: seq<Atom>, env: Env) {
    exists feet :: FeetRight(pre, env, feet) && NoClash(feet)
  }

  lemma FeetUnique(pre: seq<Atom>, env: Env, feet: seq<Foot>, feet': seq<Foot>)
    requires FeetRight(pre, env, feet) && FeetRight(pre, env, feet')
    ensures feet == feet'
  {
    hide FootOf;
    forall i | 0 <= i < |feet|
      ensures feet[i] == feet'[i]
    {
      assert FootOf(pre[i], env) == Some(feet[i]);
    }
  }

  /** Returns the assignment of the passes exactly when it passes. */
  method BuildSatWitness(pre: seq<Atom>, vars: seq<Name>, sawCall: bool) returns (r: Option<Env>)
    ensures r.Some? <==> Assigned(pre, vars).Some? && Passes(pre, Assigned(pre, vars).value)
    ensures r.Some? ==> r == Assigned(pre, vars)
  {
    hide FootOf, Clash, Assigned;
    r := AssignRoots(pre, vars);
    if r.None? {
      return;
    }
    var env := r.value;
    var feet: seq<Foot> := [];
    var i := 0;
    while i < |pre|
      invariant i == |feet| <= |pre|
      invariant forall k :: 0 <= k < i ==> FootOf(pre[k], env) == Some(feet[k])
    {
      var foot := FootOf(pre[i], env);
      if foot.None? {
        return None;
      }
      feet := feet + [foot.value];
      i := i + 1;
    }
    assert FeetRight(pre, env, feet);
    assert Passes(pre, env) <==> NoClash(feet) by {
      forall f | FeetRight(pre, env, f)
        ensures f == feet
      {
        FeetUnique(pre, env, f, feet);
      }
    }
    var all := if sawCall then feet + [Foot(None, None, true)] else feet;
    var ok := CheckFeet(all);
    CallFootFree(pre, env, feet, all);
    if !ok {
      return None;
    }
  }

  /** The call stack's foot clashes with no atom's. */
  lemma CallFootFree(pre: seq<Atom>, env: Env, feet: seq<Foot>, all: seq<Foot>)
    requires FeetRight(pre, env, feet) && (all == feet || all == feet + [Foot(None, None, true)])
    ensures NoClash(all) <==> NoClash(feet)
  {
    hide Eval, Eff;
    if NoClash(feet) {
      forall i, j | 0 <= i < j < |all|
        ensures !Clash(all[i], all[j])
      {
        assert FootOf(pre[i], env) == Some(feet[i]);
      }
    }
    if NoClash(all) {
      forall i, j | 0 <= i < j < |feet|
        ensures !Clash(feet[i], feet[j])
      {
        assert all[i] == feet[i] && all[j] == feet[j];
      }
    }
  }
}
