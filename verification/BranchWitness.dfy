/** The search for an assignment that satisfies every path hypothesis: a greedy pass, a repair of
    equality classes and hill climbing (`build_branch_witness`). */
module BranchWitness {
  import opened Words
  import opened SymExpr
  import opened Branch
  import opened UnionFind

  /** The hypothesis is defined and true. */
  predicate True(h: BranchHyp, env: Env) {
    EvalBranch(h, env) == Some(true)
  }

  predicate AllTrue(branches: seq<BranchHyp>, env: Env) {
    forall i :: 0 <= i < |branches| ==> True(branches[i], env)
  }

  lemma TrueStays(h: BranchHyp, env: Env, env': Env)
    requires Extends(env, env') && True(h, env)
    ensures True(h, env')
  {
    hide EvalBranch;
    EvalBranchMonotone(h, env, env');
  }

  // ----- steering one hypothesis -----

  datatype Candidate = Candidate(dst: u64, src: Option<u64>)

  /** The target values tried for a hypothesis, as a function of the assignment so far. */
  type Generator = (BranchHyp, Env) -> seq<Candidate>

  function SolveSrc(h: BranchHyp, c: Candidate, env: Env): Solved {
    if h.src.Some? && c.src.Some? then Solve(h.src.value, c.src.value, env) else Solved(true, env)
  }

  /** Steers both operands, in the given order; the first failure stops. */
  function Trial(h: BranchHyp, c: Candidate, srcFirst: bool, env: Env): Solved {
    if srcFirst then
      var s := SolveSrc(h, c, env);
      if !s.ok then s else Solve(h.dst, c.dst, s.env)
    else
      var d := Solve(h.dst, c.dst, env);
      if !d.ok then d else SolveSrc(h, c, d.env)
  }

  predicate Works(h: BranchHyp, c: Candidate, srcFirst: bool, env: Env) {
    Trial(h, c, srcFirst, env).ok && True(h, Trial(h, c, srcFirst, env).env)
  }

  lemma ExtendsTrans(a: Env, b: Env, c: Env)
    requires Extends(a, b) && Extends(b, c)
    ensures Extends(a, c)
  {
  }

  lemma TrialExtends(h: BranchHyp, c: Candidate, srcFirst: bool, env: Env)
    ensures Extends(env, Trial(h, c, srcFirst, env).env)
  {
    hide Solve, Eval;
    if srcFirst {
      SrcExtends(h, c, env);
      SolveSound(h.dst, c.dst, SolveSrc(h, c, env).env);
    } else {
      SolveSound(h.dst, c.dst, env);
      SrcExtends(h, c, Solve(h.dst, c.dst, env).env);
    }
  }

  lemma SrcExtends(h: BranchHyp, c: Candidate, env: Env)
    ensures Extends(env, SolveSrc(h, c, env).env)
  {
    hide Solve, Eval;
    if h.src.Some? && c.src.Some? {
      SolveSound(h.src.value, c.src.value, env);
    }
  }

  /** The first candidate that works, destination first and then source first. */
  function Steered(h: BranchHyp, cands: seq<Candidate>, env: Env): Env {
    if |cands| == 0 then env
    else if Works(h, cands[0], false, env) then Trial(h, cands[0], false, env).env
    else if Works(h, cands[0], true, env) then Trial(h, cands[0], true, env).env
    else Steered(h, cands[1..], env)
  }

  /** Steering only adds bindings, and makes the hypothesis true exactly when some candidate
      works; otherwise nothing is committed. */
  lemma {:induction false} SteeredSound(h: BranchHyp, cands: seq<Candidate>, env: Env)
    ensures Extends(env, Steered(h, cands, env))
    ensures if exists c, b :: c in cands && Works(h, c, b, env) then True(h, Steered(h, cands, env))
            else Steered(h, cands, env) == env
  {
    hide Works, Trial;
    if |cands| > 0 {
      TrialExtends(h, cands[0], false, env);
      TrialExtends(h, cands[0], true, env);
      WorksMeans(h, cands[0], env);
      SteeredSound(h, cands[1..], env);
      assert forall c :: c in cands <==> c == cands[0] || c in cands[1..];
      assert (exists c, b :: c in cands && Works(h, c, b, env))
             <==> Works(h, cands[0], false, env) || Works(h, cands[0], true, env)
                  || (exists c, b :: c in cands[1..] && Works(h, c, b, env));
    }
  }

  lemma WorksMeans(h: BranchHyp, c: Candidate, env: Env)
    ensures Works(h, c, false, env) ==> True(h, Trial(h, c, false, env).env)
    ensures Works(h, c, true, env) ==> True(h, Trial(h, c, true, env).env)
  {
  }

  method Steer(h: BranchHyp, cands: seq<Candidate>, env: Env) returns (r: Env)
    ensures r == Steered(h, cands, env)
  {
    hide Trial, True;
    var i := 0;
    while i < |cands|
      invariant i <= |cands| && Steered(h, cands[i..], env) == Steered(h, cands, env)
    {
      var c := cands[i];
      assert cands[i..][0] == c && cands[i..][1..] == cands[i + 1..];
      var trial := Trial(h, c, false, env);
      if trial.ok && True(h, trial.env) {
        return trial.env;
      }
      trial := Trial(h, c, true, env);
      if trial.ok && True(h, trial.env) {
        return trial.env;
      }
      i := i + 1;
    }
    r := env;
  }

  // ----- the source's candidates -----

  function Only(d: int): Candidate {
    Candidate(WrapU(d), None)
  }

  function Both(d: u64, s: u64): Candidate {
    Candidate(d, Some(s))
  }

  /** Targets for a comparison with an immediate. */
  function ImmCandidates(cond: Cond, taken: bool, imm: u64): seq<Candidate> {
    match cond
    case Eq => if taken then [Only(imm)] else OtherThan(imm)
    case Ne => if taken then OtherThan(imm) else [Only(imm)]
    case Gt => if taken then [Only(imm + 1)] else [Only(0), Only(imm)]
    case Lt => if taken then Below(imm) else [Only(imm), Only(imm + 1)]
    case Le => if taken then [Only(0), Only(imm)] else [Only(imm + 1)]
    case Ge => if taken then [Only(imm), Only(imm + 1)] else Below(imm)
    case Set => if !taken then [Only(0)] else if imm != 0 then [Only(imm)] else []
    case Sgt => if taken then [Only(imm + 1), Only(256), Only(65536)] else [Only(0), Only(imm)]
    case Sle => if taken then [Only(0), Only(imm)] else [Only(imm + 1), Only(256), Only(65536)]
    case Slt => if taken then Below(imm) else [Only(imm), Only(imm + 1)]
    case Sge => if taken then [Only(imm), Only(imm + 1), Only(256)] else Below(imm)
  }

  function Below(v: u64): seq<Candidate> {
    if v > 0 then [Only(0), Only(v - 1)] else []
  }

  function OtherThan(imm: u64): seq<Candidate> {
    Without([Only(imm + 1), Only(imm - 1), Only(0), Only(1), Only(2), Only(3)], imm)
  }

  function Without(cs: seq<Candidate>, v: u64): seq<Candidate> {
    if |cs| == 0 then []
    else if cs[0].dst == v then Without(cs[1..], v)
    else [cs[0]] + Without(cs[1..], v)
  }

  /** Targets for a comparison of two registers, given what either side already is. */
  function RegCandidates(cond: Cond, taken: bool, dv: Option<u64>, sv: Option<u64>): seq<Candidate> {
    match cond
    case Eq => if taken then EqualPair(dv, sv) else UnequalPair(sv)
    case Ne => if taken then UnequalPair(sv) else EqualPair(dv, sv)
    case Lt => if taken then LessPair(sv) else AtLeastPair(sv, [Both(1, 0), Both(0, 0)])
    case Slt => if taken then LessPair(sv) else AtLeastPair(sv, [Both(1, 0), Both(0, 0)])
    case Ge => if taken then AtLeastPair(sv, [Both(0, 0), Both(1, 0)]) else LessPair(sv)
    case Sge => if taken then AtLeastPair(sv, [Both(0, 0), Both(1, 0)]) else LessPair(sv)
    case Gt => if taken then MorePair(sv) else AtMostPair(sv, [Both(0, 1), Both(0, 0)])
    case Sgt => if taken then MorePair(sv) else AtMostPair(sv, [Both(0, 1), Both(0, 0)])
    case Le => if taken then AtMostPair(sv, [Both(0, 0), Both(0, 1)]) else MorePair(sv)
    case Sle => if taken then AtMostPair(sv, [Both(0, 0), Both(0, 1)]) else MorePair(sv)
    case Set =>
      if !taken then [Only(0)]
      else if sv.Some? && sv.value != 0 then [Only(sv.value)]
      else [Both(1, 1)]
  }

  function EqualPair(dv: Option<u64>, sv: Option<u64>): seq<Candidate> {
    if sv.Some? then [Only(sv.value)] else if dv.Some? then [Both(dv.value, dv.value)] else [Both(0, 0)]
  }

  function UnequalPair(sv: Option<u64>): seq<Candidate> {
    if sv.Some? then [Only(sv.value + 1), Only(sv.value - 1)] else [Both(1, 0), Both(0, 1)]
  }

  function LessPair(sv: Option<u64>): seq<Candidate> {
    if sv.Some? && sv.value > 0 then [Only(sv.value - 1), Only(0)] else [Both(0, 1)]
  }

  function AtLeastPair(sv: Option<u64>, free: seq<Candidate>): seq<Candidate> {
    if sv.Some? then [Only(sv.value), Only(sv.value + 1)] else free
  }

  function AtMostPair(sv: Option<u64>, free: seq<Candidate>): seq<Candidate> {
    if sv.Some? then [Only(sv.value), Only(0)] else free
  }

  function MorePair(sv: Option<u64>): seq<Candidate> {
    if sv.Some? then [Only(sv.value + 1)] else [Both(1, 0)]
  }

  /** Targets for a 32-bit comparison: values near the right-hand side, for both sides if it is free. */
  function NearCandidates(rhs: u64, pairs: bool): seq<Candidate> {
    var near := [rhs, WrapU(rhs + 1), WrapU(rhs - 1), 0, 1, 2, 0xffff_ffff];
    if pairs then seq(49, i requires 0 <= i < 49 => Both(near[i / 7], near[i % 7]))
    else seq(7, i requires 0 <= i < 7 => Only(near[i]))
  }

  /** `branch_candidates`. */
  function Candidates(h: BranchHyp, env: Env): seq<Candidate> {
    var imm := WrapU(h.imm);
    var dv := Eval(h.dst, env);
    var sv := if h.src.Some? then Eval(h.src.value, env) else None;
    match h.kind
    case Imm64(cond) => ImmCandidates(cond, h.taken, imm)
    case Reg64(cond) => RegCandidates(cond, h.taken, dv, sv)
    case Jmp32(_) => NearCandidates(if sv.Some? then sv.value else imm, h.src.Some? && sv.None?)
  }

  // ----- the greedy pass -----

  /** 0: byte-combination equality, 1: scalar equality, 2: inequality, 3: disequality. */
  function Priority(h: BranchHyp): nat {
    match h.kind
    case Jmp32(c) =>
      if (c.Eq? && h.taken) || (c.Ne? && !h.taken) then 1
      else if c.Eq? || c.Ne? then 3
      else 2
    case _ =>
      var c := h.kind.cond;
      if (c.Eq? && h.taken) || (c.Ne? && !h.taken) then (if h.dst.ByteCombo? then 0 else 1)
      else if c.Eq? || c.Ne? then 3
      else 2
  }

  /** `env` with every listed variable it does not bind set to 0. */
  function ZeroFilled(env: Env, vars: seq<Name>): Env {
    map n | n in env.Keys + Listed(vars) :: if n in env then env[n] else 0
  }

  function Listed(vars: seq<Name>): set<Name> {
    set n | n in vars
  }

  method ZeroFill(env0: Env, vars: seq<Name>) returns (env: Env)
    ensures env == ZeroFilled(env0, vars) && Extends(env0, env)
  {
    env := env0;
    var i := 0;
    while i < |vars|
      invariant i <= |vars| && env == ZeroFilled(env0, vars[..i])
    {
      if vars[i] !in env {
        env := env[vars[i] := 0];
      }
      assert Listed(vars[..i + 1]) == Listed(vars[..i]) + {vars[i]} by {
        assert vars[..i + 1] == vars[..i] + [vars[i]];
      }
      i := i + 1;
    }
    assert vars[..i] == vars;
  }

  /** A hypothesis already true is left alone, and so is a disequality that a zero fill satisfies. */
  function GreedyStep(h: BranchHyp, gen: Generator, env: Env): Env {
    if True(h, env) then env
    else if Priority(h) == 3 && True(h, ZeroFilled(env, BranchVars(h))) then env
    else Steered(h, gen(h, env), env)
  }

  /** The assignment after the first `k` hypotheses of `order`. */
  function GreedyEnv(order: seq<BranchHyp>, gen: Generator, k: nat): Env
    requires k <= |order|
  {
    if k == 0 then map[] else GreedyStep(order[k - 1], gen, GreedyEnv(order, gen, k - 1))
  }

  method GreedyPass(order: seq<BranchHyp>, gen: Generator) returns (env: Env)
    ensures env == GreedyEnv(order, gen, |order|)
  {
    hide Steered, EvalBranch;
    env := map[];
    var i := 0;
    while i < |order|
      invariant i <= |order| && env == GreedyEnv(order, gen, i)
    {
      var h := order[i];
      if !True(h, env) {
        var probed := false;
        if Priority(h) == 3 {
          var probe := ZeroFill(env, BranchVars(h));
          probed := True(h, probe);
        }
        if !probed {
          env := Steer(h, gen(h, env), env);
        }
      }
      i := i + 1;
    }
  }

  lemma {:induction false} GreedyExtends(order: seq<BranchHyp>, gen: Generator, k: nat, l: nat)
    requires k <= l <= |order|
    ensures Extends(GreedyEnv(order, gen, k), GreedyEnv(order, gen, l))
    decreases l
  {
    hide Steered, EvalBranch;
    if k < l {
      GreedyExtends(order, gen, k, l - 1);
      var h, env := order[l - 1], GreedyEnv(order, gen, l - 1);
      SteeredSound(h, gen(h, env), env);
    }
  }

  /** Whatever the candidates and the order, a hypothesis that is true after `k` steps is true
      after every later step and after the zero fill. */
  lemma GreedyKeepsTruth(order: seq<BranchHyp>, gen: Generator, k: nat, l: nat, vars: seq<Name>, h: BranchHyp)
    requires k <= l <= |order| && True(h, GreedyEnv(order, gen, k))
    ensures True(h, GreedyEnv(order, gen, l))
    ensures True(h, ZeroFilled(GreedyEnv(order, gen, |order|), vars))
  {
    hide EvalBranch, GreedyEnv, True;
    GreedyExtends(order, gen, k, l);
    TrueStays(h, GreedyEnv(order, gen, k), GreedyEnv(order, gen, l));
    GreedyExtends(order, gen, k, |order|);
    TrueStays(h, GreedyEnv(order, gen, k), GreedyEnv(order, gen, |order|));
    TrueStays(h, GreedyEnv(order, gen, |order|), ZeroFilled(GreedyEnv(order, gen, |order|), vars));
  }

  /** At its turn a hypothesis becomes true, or the assignment does not change. */
  lemma GreedyStepCommits(order: seq<BranchHyp>, gen: Generator, k: nat)
    requires k < |order|
    ensures True(order[k], GreedyEnv(order, gen, k + 1)) || GreedyEnv(order, gen, k + 1) == GreedyEnv(order, gen, k)
  {
    hide Steered, EvalBranch;
    var h, env := order[k], GreedyEnv(order, gen, k);
    SteeredSound(h, gen(h, env), env);
  }

  /** Some candidate works for the hypothesis under this assignment. */
  ghost predicate SomeWorks(h: BranchHyp, gen: Generator, env: Env) {
    exists c, b :: c in gen(h, env) && Works(h, c, b, env)
  }

  /** A disequality that holds once its variables are filled with zeros. */
  predicate HoldsAtZero(h: BranchHyp, env: Env) {
    Priority(h) == 3 && True(h, ZeroFilled(env, BranchVars(h)))
  }

  /** Exactly when a hypothesis is true after its turn: it was, or some candidate works and it is not
      a disequality left to the zero fill. */
  lemma GreedyStepIff(h: BranchHyp, gen: Generator, env: Env)
    ensures True(h, GreedyStep(h, gen, env)) <==> True(h, env) || (!HoldsAtZero(h, env) && SomeWorks(h, gen, env))
  {
    hide Steered, EvalBranch, Works;
    SteeredSound(h, gen(h, env), env);
  }

  /** So whatever can be steered at its turn is true at the end of the pass. */
  lemma GreedySolves(order: seq<BranchHyp>, gen: Generator, k: nat, vars: seq<Name>)
    requires k < |order|
    requires var env := GreedyEnv(order, gen, k); SomeWorks(order[k], gen, env) && !HoldsAtZero(order[k], env)
    ensures True(order[k], ZeroFilled(GreedyEnv(order, gen, |order|), vars))
  {
    hide GreedyStep, True, SomeWorks, HoldsAtZero, ZeroFilled;
    var env := GreedyEnv(order, gen, k);
    GreedyStepIff(order[k], gen, env);
    assert GreedyEnv(order, gen, k + 1) == GreedyStep(order[k], gen, env);
    hide GreedyEnv;
    GreedyKeepsTruth(order, gen, k + 1, k + 1, vars, order[k]);
  }

  // ----- what a hypothesis depends on -----

  ghost predicate Agree(env: Env, env': Env, vars: seq<Name>) {
    forall n :: n in vars ==> (n in env <==> n in env') && (n in env ==> env'[n] == env[n])
  }

  lemma {:induction false} EvalOnVars(e: Expr, env: Env, env': Env)
    requires Agree(env, env', Vars(e))
    ensures Eval(e, env') == Eval(e, env)
    decreases e, 1
  {
    match e
    case InitReg(n) => assert n in Vars(e);
    case InitMem(n) => assert n in Vars(e);
    case ToU64(a) => EvalOnVars(a, env, env');
    case Unary(_, a) => EvalOnVars(a, env, env');
    case Binary(_, a, b) =>
      EvalOnVars(a, env, env');
      EvalOnVars(b, env, env');
    case ByteCombo(bytes) => EvalComboOnVars(bytes, env, env');
    case _ =>
  }

  lemma {:induction false} EvalComboOnVars(es: seq<Expr>, env: Env, env': Env)
    requires Agree(env, env', VarsOfAll(es))
    ensures EvalCombo(es, env') == EvalCombo(es, env)
    decreases es, 0
  {
    if |es| > 0 {
      EvalOnVars(es[0], env, env');
      EvalComboOnVars(es[1..], env, env');
    }
  }

  lemma BranchOnVars(h: BranchHyp, env: Env, env': Env)
    requires Agree(env, env', BranchVars(h))
    ensures EvalBranch(h, env') == EvalBranch(h, env)
  {
    hide Eval, Vars, Compare64, Compare32;
    EvalOnVars(h.dst, env, env');
    if h.src.Some? {
      EvalOnVars(h.src.value, env, env');
    }
  }

  // ----- repairing the classes -----

  predicate Internal(h: BranchHyp, members: seq<Name>) {
    BranchVars(h) != [] && forall n :: n in BranchVars(h) ==> n in members
  }

  predicate InternalTrue(branches: seq<BranchHyp>, members: seq<Name>, env: Env) {
    forall i :: 0 <= i < |branches| && Internal(branches[i], members) ==> True(branches[i], env)
  }

  /** One value for every member. */
  function Uniform(env: Env, members: seq<Name>, v: u64): Env {
    map n | n in env.Keys + Listed(members) :: if n in members then v else env[n]
  }

  method SetMembers(env0: Env, members: seq<Name>, v: u64) returns (env: Env)
    ensures env == Uniform(env0, members, v)
  {
    env := env0;
    var i := 0;
    while i < |members|
      invariant i <= |members| && env == Uniform(env0, members[..i], v)
    {
      env := env[members[i] := v];
      assert members[..i + 1] == members[..i] + [members[i]];
      i := i + 1;
    }
    assert members[..i] == members;
  }

  /** The first pool value that satisfies every internal hypothesis. */
  function FirstShared(branches: seq<BranchHyp>, members: seq<Name>, pool: seq<u64>, env: Env): Option<u64> {
    if |pool| == 0 then None
    else if InternalTrue(branches, members, Uniform(env, members, pool[0])) then Some(pool[0])
    else FirstShared(branches, members, pool[1..], env)
  }

  /** The value the repair commits for a class, if any; it can be computed before the repair. */
  function Committed(branches: seq<BranchHyp>, members: seq<Name>, pool: seq<u64>, env: Env): Option<u64> {
    if InternalTrue(branches, members, env) then None else FirstShared(branches, members, pool, env)
  }

  function Repaired(branches: seq<BranchHyp>, members: seq<Name>, pool: seq<u64>, env: Env): Env {
    match Committed(branches, members, pool, env)
    case None => env
    case Some(v) => Uniform(env, members, v)
  }

  /** `v` is the first pool value under which the class's own hypotheses hold. */
  ghost predicate FirstThatWorks(branches: seq<BranchHyp>, members: seq<Name>, pool: seq<u64>, env: Env, v: u64) {
    exists i :: 0 <= i < |pool| && pool[i] == v && InternalTrue(branches, members, Uniform(env, members, v))
                && forall j :: 0 <= j < i ==> !InternalTrue(branches, members, Uniform(env, members, pool[j]))
  }

  lemma {:induction false} FirstSharedMeans(branches: seq<BranchHyp>, members: seq<Name>, pool: seq<u64>, env: Env)
    ensures match FirstShared(branches, members, pool, env)
            case Some(v) => FirstThatWorks(branches, members, pool, env, v)
            case None => forall v :: v in pool ==> !InternalTrue(branches, members, Uniform(env, members, v))
  {
    hide InternalTrue, Uniform;
    if |pool| > 0 {
      var rest := pool[1..];
      FirstSharedMeans(branches, members, rest, env);
      var v := FirstShared(branches, members, pool, env);
      if InternalTrue(branches, members, Uniform(env, members, pool[0])) {
        assert pool[0] == v.value;
      } else if v.Some? {
        var i :| 0 <= i < |rest| && rest[i] == v.value && InternalTrue(branches, members, Uniform(env, members, v.value))
                 && forall j :: 0 <= j < i ==> !InternalTrue(branches, members, Uniform(env, members, rest[j]));
        assert pool[i + 1] == v.value;
        forall j | 0 <= j < i + 1
          ensures !InternalTrue(branches, members, Uniform(env, members, pool[j]))
        {
          assert j > 0 ==> pool[j] == rest[j - 1];
        }
      }
    }
  }

  /** Tries one shared value after another until every internal hypothesis holds. */
  method RepairClass(branches: seq<BranchHyp>, members: seq<Name>, pool: seq<u64>, env0: Env) returns (env: Env)
    ensures env == Repaired(branches, members, pool, env0)
  {
    hide InternalTrue;
    env := env0;
    if InternalTrue(branches, members, env) {
      return;
    }
    var i := 0;
    while i < |pool|
      invariant i <= |pool| && FirstShared(branches, members, pool[i..], env0) == FirstShared(branches, members, pool, env0)
    {
      assert pool[i..][0] == pool[i] && pool[i..][1..] == pool[i + 1..];
      var trial := SetMembers(env0, members, pool[i]);
      if InternalTrue(branches, members, trial) {
        return trial;
      }
      i := i + 1;
    }
  }

  predicate Mentions(h: BranchHyp, members: seq<Name>) {
    exists n :: n in BranchVars(h) && n in members
  }

  /** What one repair does: the class's own hypotheses are true afterwards or nothing has changed,
      nothing changes if they were true before, and a solution in the pool is always found. */
  lemma RepairedMeans(branches: seq<BranchHyp>, members: seq<Name>, pool: seq<u64>, env: Env)
    ensures var env' := Repaired(branches, members, pool, env);
            (InternalTrue(branches, members, env) ==> env' == env)
            && (InternalTrue(branches, members, env') || env' == env)
            && ((exists v :: v in pool && InternalTrue(branches, members, Uniform(env, members, v)))
                ==> InternalTrue(branches, members, env'))
  {
    hide InternalTrue, Uniform;
    FirstSharedMeans(branches, members, pool, env);
  }

  /** Exactly which true hypotheses one repair keeps. A value is committed if the class's own
      hypotheses do not all hold and the pool has one that makes them; it is the first such. Then a
      true hypothesis survives if it mentions no member of the class or the value keeps it true. */
  lemma RepairKeepsIff(branches: seq<BranchHyp>, members: seq<Name>, pool: seq<u64>, env: Env, h: BranchHyp)
    requires True(h, env)
    ensures match Committed(branches, members, pool, env)
            case None =>
              (InternalTrue(branches, members, env)
               || forall v :: v in pool ==> !InternalTrue(branches, members, Uniform(env, members, v)))
              && True(h, Repaired(branches, members, pool, env))
            case Some(v) =>
              !InternalTrue(branches, members, env) && FirstThatWorks(branches, members, pool, env, v)
              && (True(h, Repaired(branches, members, pool, env))
                  <==> !Mentions(h, members) || True(h, Uniform(env, members, v)))
  {
    hide EvalBranch, BranchVars, FirstShared, InternalTrue, FirstThatWorks;
    FirstSharedMeans(branches, members, pool, env);
    var v := Committed(branches, members, pool, env);
    if v.Some? && !Mentions(h, members) {
      BranchOnVars(h, env, Uniform(env, members, v.value));
    }
  }

  ghost predicate DisjointClasses(classes: Classes) {
    forall r, s, x :: r in classes && s in classes && x in classes[r] && x in classes[s] ==> r == s
  }

  /** Repairing one class keeps every true hypothesis that is internal to some class. */
  lemma RepairKeeps(
    branches: seq<BranchHyp>, classes: Classes, pool: seq<u64>, r: Name, s: Name, env0: Env, env: Env, h: BranchHyp)
    requires DisjointClasses(classes) && r in classes && s in classes && h in branches
    requires Internal(h, classes[s]) && True(h, env0)
    requires env == Repaired(branches, classes[r], pool, env0)
    ensures True(h, env)
  {
    hide EvalBranch, BranchVars, Committed;
    RepairedMeans(branches, classes[r], pool, env0);
    RepairKeepsIff(branches, classes[r], pool, env0, h);
    if r == s {
      var i :| 0 <= i < |branches| && branches[i] == h;
    } else {
      forall n | n in BranchVars(h)
        ensures n !in classes[r]
      {
      }
    }
  }

  /** One value of the pool, given to every member, makes the class's own hypotheses true. */
  ghost predicate Fixable(branches: seq<BranchHyp>, members: seq<Name>, pool: seq<u64>) {
    exists v :: v in pool && InternalTrue(branches, members, Uniform(map[], members, v))
  }

  /** Whether it does has nothing to do with the other variables. */
  lemma UniformLocal(branches: seq<BranchHyp>, members: seq<Name>, env: Env, env': Env, v: u64)
    requires InternalTrue(branches, members, Uniform(env, members, v))
    ensures InternalTrue(branches, members, Uniform(env', members, v))
  {
    hide EvalBranch, BranchVars;
    forall i | 0 <= i < |branches| && Internal(branches[i], members)
      ensures True(branches[i], Uniform(env', members, v))
    {
      BranchOnVars(branches[i], Uniform(env, members, v), Uniform(env', members, v));
    }
  }

  ghost predicate SameAt(env: Env, env': Env, x: Name) {
    (x in env <==> x in env') && (x in env ==> env[x] == env'[x])
  }

  lemma FixableHere(branches: seq<BranchHyp>, members: seq<Name>, pool: seq<u64>, env: Env)
    ensures Fixable(branches, members, pool)
            <==> exists v :: v in pool && InternalTrue(branches, members, Uniform(env, members, v))
  {
    hide InternalTrue, Uniform;
    if Fixable(branches, members, pool) {
      var v :| v in pool && InternalTrue(branches, members, Uniform(map[], members, v));
      UniformLocal(branches, members, map[], env, v);
    }
    if exists v :: v in pool && InternalTrue(branches, members, Uniform(env, members, v)) {
      var v :| v in pool && InternalTrue(branches, members, Uniform(env, members, v));
      UniformLocal(branches, members, env, map[], v);
    }
  }

  lemma UniformTouches(env: Env, members: seq<Name>, v: u64)
    ensures env.Keys <= Uniform(env, members, v).Keys
    ensures forall x :: x !in members ==> SameAt(env, Uniform(env, members, v), x)
  {
  }

  /** One repair makes a fixable class true, and touches only the members of a fixable class. */
  lemma RepairedFixes(branches: seq<BranchHyp>, members: seq<Name>, pool: seq<u64>, env: Env)
    ensures var env' := Repaired(branches, members, pool, env);
            (Fixable(branches, members, pool) ==> InternalTrue(branches, members, env'))
            && env.Keys <= env'.Keys
            && forall x :: x !in members || !Fixable(branches, members, pool) ==> SameAt(env, env', x)
  {
    hide InternalTrue, Uniform, Fixable, SameAt;
    FixableHere(branches, members, pool, env);
    RepairedMeans(branches, members, pool, env);
    FirstSharedMeans(branches, members, pool, env);
    SameAtItself(env);
    var env' := Repaired(branches, members, pool, env);
    var v := Committed(branches, members, pool, env);
    if v.Some? {
      UniformTouches(env, members, v.value);
      assert Fixable(branches, members, pool);
    }
  }

  /** Once true, a class stays true while other classes are repaired. */
  lemma RepairKeepsClass(
    branches: seq<BranchHyp>, classes: Classes, pool: seq<u64>, r: Name, s: Name, env0: Env, env: Env)
    requires DisjointClasses(classes) && r in classes && s in classes
    requires InternalTrue(branches, classes[s], env0) && env == Repaired(branches, classes[r], pool, env0)
    ensures InternalTrue(branches, classes[s], env)
  {
    hide True, Internal, Repaired, DisjointClasses;
    forall i | 0 <= i < |branches| && Internal(branches[i], classes[s])
      ensures True(branches[i], env)
    {
      RepairKeeps(branches, classes, pool, r, s, env0, env, branches[i]);
    }
  }

  /** What the repair achieves, in whatever order the classes are visited: every class that one pool
      value satisfies is true, and so is every class that was; only members of fixable classes are
      touched. */
  ghost predicate RepairDone(branches: seq<BranchHyp>, classes: Classes, pool: seq<u64>, env0: Env, env: Env) {
    (forall s :: s in classes && (Fixable(branches, classes[s], pool) || InternalTrue(branches, classes[s], env0)) ==>
                   InternalTrue(branches, classes[s], env))
    && env0.Keys <= env.Keys
    && (forall x :: (forall s :: s in classes && x in classes[s] ==> !Fixable(branches, classes[s], pool)) ==> SameAt(env0, env, x))
    && (AllTrue(branches, env0) ==> env == env0)
  }

  method Repair(branches: seq<BranchHyp>, classes: Classes, pool: seq<u64>, env0: Env) returns (env: Env)
    requires DisjointClasses(classes)
    ensures RepairDone(branches, classes, pool, env0, env)
    ensures forall h, s :: h in branches && s in classes && Internal(h, classes[s]) && True(h, env0) ==> True(h, env)
  {
    hide True, Uniform, Internal, Fixable, InternalTrue, SameAt;
    env := env0;
    SameAtItself(env0);
    var left := classes.Keys;
    while left != {}
      invariant left <= classes.Keys && env0.Keys <= env.Keys
      invariant forall s :: s in classes && InternalTrue(branches, classes[s], env0) ==> InternalTrue(branches, classes[s], env)
      invariant forall s :: s in classes && s !in left && Fixable(branches, classes[s], pool) ==>
                              InternalTrue(branches, classes[s], env)
      invariant forall x :: (forall s :: s in classes && x in classes[s] ==> !Fixable(branches, classes[s], pool)) ==>
                              SameAt(env0, env, x)
      invariant forall h, s :: h in branches && s in classes && Internal(h, classes[s]) && True(h, env0) ==> True(h, env)
      invariant AllTrue(branches, env0) ==> env == env0
      decreases |left|
    {
      var r :| r in left;
      ghost var was := env;
      env := RepairClass(branches, classes[r], pool, env);
      RepairedMeans(branches, classes[r], pool, was);
      if AllTrue(branches, was) {
        AllTrueInternal(branches, classes[r], was);
      }
      RepairedFixes(branches, classes[r], pool, was);
      hide Repaired, AllTrue;
      forall s | s in classes && InternalTrue(branches, classes[s], was)
        ensures InternalTrue(branches, classes[s], env)
      {
        RepairKeepsClass(branches, classes, pool, r, s, was, env);
      }
      forall h, s | h in branches && s in classes && Internal(h, classes[s]) && True(h, env0)
        ensures True(h, env)
      {
        RepairKeeps(branches, classes, pool, r, s, was, env, h);
      }
      forall x | forall s :: s in classes && x in classes[s] ==> !Fixable(branches, classes[s], pool)
        ensures SameAt(env0, env, x)
      {
        assert SameAt(was, env, x);
        SameAtTrans(env0, was, env, x);
      }
      left := left - {r};
    }
  }

  lemma SameAtItself(env: Env)
    ensures forall x :: SameAt(env, env, x)
  {
  }

  lemma SameAtTrans(env0: Env, env1: Env, env2: Env, x: Name)
    requires SameAt(env0, env1, x) && SameAt(env1, env2, x)
    ensures SameAt(env0, env2, x)
  {
  }

  lemma AllTrueInternal(branches: seq<BranchHyp>, members: seq<Name>, env: Env)
    requires AllTrue(branches, env)
    ensures InternalTrue(branches, members, env)
  {
  }

  // ----- hill climbing -----

  /** The number of satisfied hypotheses. */
  function Score(branches: seq<BranchHyp>, env: Env): (n: nat)
    ensures n <= |branches| && (n == |branches| <==> AllTrue(branches, env))
  {
    if |branches| == 0 then 0
    else
      var init := branches[..|branches| - 1];
      assert AllTrue(branches, env) <==> AllTrue(init, env) && True(branches[|branches| - 1], env);
      Score(init, env) + (if True(branches[|branches| - 1], env) then 1 else 0)
  }

  lemma {:induction false} ScoreExtends(branches: seq<BranchHyp>, env: Env, env': Env)
    requires Extends(env, env')
    ensures Score(branches, env) <= Score(branches, env')
  {
    hide True;
    if |branches| > 0 {
      ScoreExtends(branches[..|branches| - 1], env, env');
      var h := branches[|branches| - 1];
      if True(h, env) {
        TrueStays(h, env, env');
      }
    }
  }

  /** Moves one variable to the best value of the pool: no other choice of it scores higher, the
      score does not drop, and no other variable changes. A variable without a value gets one; a
      variable with a value keeps it unless another scores higher. */
  method Improve(branches: seq<BranchHyp>, v: Name, pool: seq<u64>, env0: Env) returns (env: Env)
    ensures Score(branches, env) >= Score(branches, env0)
    ensures forall c :: c in pool ==> Score(branches, env) >= Score(branches, env0[v := c])
    ensures v in env && env == env0[v := env[v]]
    ensures v in env0 && Score(branches, env) == Score(branches, env0) ==> env == env0
    ensures v in env0 && (forall c :: c in pool ==> Score(branches, env0[v := c]) <= Score(branches, env0)) ==> env == env0
  {
    hide Score;
    var bestScore, best := Score(branches, env0), if v in env0 then env0[v] else 0;
    ScoreExtends(branches, env0, if v in env0 then env0 else env0[v := 0]);
    assert v in env0 ==> env0[v := env0[v]] == env0;
    var i := 0;
    while i < |pool|
      invariant i <= |pool|
      invariant Score(branches, env0[v := best]) >= bestScore >= Score(branches, env0)
      invariant v in env0 && bestScore == Score(branches, env0) ==> best == env0[v]
      invariant (forall c :: c in pool ==> Score(branches, env0[v := c]) <= Score(branches, env0)) ==>
                  bestScore == Score(branches, env0)
      invariant forall c :: c in pool[..i] ==> bestScore >= Score(branches, env0[v := c])
    {
      var c := pool[i];
      assert c in pool;
      var trial := Score(branches, env0[v := c]);
      if trial > bestScore {
        bestScore, best := trial, c;
      }
      assert pool[..i + 1] == pool[..i] + [c];
      i := i + 1;
    }
    assert pool[..i] == pool;
    env := env0[v := best];
  }

  ghost predicate Bound(vars: seq<Name>, env: Env) {
    forall v :: v in vars ==> v in env
  }

  /** No change of one variable to a pool value scores higher. */
  ghost predicate LocallyBest(branches: seq<BranchHyp>, vars: seq<Name>, pool: seq<u64>, env: Env) {
    forall v, c :: v in vars && c in pool ==> Score(branches, env[v := c]) <= Score(branches, env)
  }

  /** One round. If it does not raise the score, it changed nothing and nothing single would. */
  method ImproveAll(branches: seq<BranchHyp>, vars: seq<Name>, pool: seq<u64>, env0: Env) returns (env: Env)
    ensures Score(branches, env) >= Score(branches, env0) && env0.Keys <= env.Keys
    ensures Bound(vars, env0) && Score(branches, env) == Score(branches, env0) ==>
              env == env0 && LocallyBest(branches, vars, pool, env)
    ensures Bound(vars, env0) && LocallyBest(branches, vars, pool, env0) ==> env == env0
  {
    hide Score;
    env := env0;
    var i := 0;
    while i < |vars|
      invariant Bound(vars, env0) && LocallyBest(branches, vars, pool, env0) ==> env == env0
      invariant i <= |vars| && Score(branches, env) >= Score(branches, env0) && env0.Keys <= env.Keys
      invariant Bound(vars, env0) && Score(branches, env) == Score(branches, env0) ==>
                  env == env0 && LocallyBest(branches, vars[..i], pool, env)
    {
      env := Improve(branches, vars[i], pool, env);
      assert vars[..i + 1] == vars[..i] + [vars[i]];
      assert vars[i] in vars;
      i := i + 1;
    }
    assert vars[..i] == vars;
  }

  /** What a climb of some rounds achieves: it ends with a full score, or where no change of one
      variable to a pool value scores higher, or every round has raised the score. */
  ghost predicate ClimbDone(branches: seq<BranchHyp>, vars: seq<Name>, pool: seq<u64>, rounds: nat, env0: Env, env: Env) {
    Score(branches, env) >= Score(branches, env0) && (AllTrue(branches, env0) ==> env == env0)
    && (Bound(vars, env0) ==>
          AllTrue(branches, env) || LocallyBest(branches, vars, pool, env)
          || Score(branches, env) >= Score(branches, env0) + rounds)
  }

  method HillClimb(branches: seq<BranchHyp>, vars: seq<Name>, pool: seq<u64>, rounds: nat, env0: Env) returns (env: Env)
    ensures ClimbDone(branches, vars, pool, rounds, env0, env)
  {
    hide Score, LocallyBest;
    env := env0;
    var round := 0;
    while round < rounds && Score(branches, env) < |branches|
      invariant round <= rounds && Score(branches, env) >= Score(branches, env0) && env0.Keys <= env.Keys
      invariant AllTrue(branches, env0) ==> env == env0
      invariant Bound(vars, env0) ==>
                  LocallyBest(branches, vars, pool, env) || Score(branches, env) >= Score(branches, env0) + round
    {
      env := ImproveAll(branches, vars, pool, env);
      round := round + 1;
    }
  }

  // ----- the whole search -----

  /** The hypotheses of one priority, in path order. */
  function WithPriority(branches: seq<BranchHyp>, p: nat): seq<BranchHyp> {
    if |branches| == 0 then []
    else if Priority(branches[0]) == p then [branches[0]] + WithPriority(branches[1..], p)
    else WithPriority(branches[1..], p)
  }

  /** The stable sort by priority. */
  function Ordered(branches: seq<BranchHyp>): seq<BranchHyp> {
    WithPriority(branches, 0) + WithPriority(branches, 1) + WithPriority(branches, 2) + WithPriority(branches, 3)
  }

  /** Sorting keeps path order within a priority. */
  lemma {:induction false} WithPriorityAppend(a: seq<BranchHyp>, b: seq<BranchHyp>, p: nat)
    ensures WithPriority(a + b, p) == WithPriority(a, p) + WithPriority(b, p)
  {
    if |a| == 0 {
      assert a + b == b;
    } else {
      WithPriorityAppend(a[1..], b, p);
      assert (a + b)[1..] == a[1..] + b;
    }
  }

  lemma {:induction false} WithPriorityAgain(branches: seq<BranchHyp>, p: nat, q: nat)
    ensures WithPriority(WithPriority(branches, p), q) == if p == q then WithPriority(branches, p) else []
    ensures forall h :: h in WithPriority(branches, p) ==> Priority(h) == p
  {
    if |branches| > 0 {
      WithPriorityAgain(branches[1..], p, q);
      var rest := WithPriority(branches[1..], p);
      if Priority(branches[0]) == p {
        assert ([branches[0]] + rest)[1..] == rest;
      }
    }
  }

  ghost predicate ByPriority(hyps: seq<BranchHyp>) {
    forall i, j :: 0 <= i < j < |hyps| ==> Priority(hyps[i]) <= Priority(hyps[j])
  }

  lemma ByPriorityAppend(a: seq<BranchHyp>, b: seq<BranchHyp>, p: nat)
    requires ByPriority(a) && forall h :: h in a ==> Priority(h) < p
    requires forall h :: h in b ==> Priority(h) == p
    ensures ByPriority(a + b) && forall h :: h in a + b ==> Priority(h) < p + 1
  {
    hide Priority;
    forall i, j | 0 <= i < j < |a + b| ensures Priority((a + b)[i]) <= Priority((a + b)[j]) {
      assert (a + b)[i] == if i < |a| then a[i] else b[i - |a|];
      assert (a + b)[j] == if j < |a| then a[j] else b[j - |a|];
    }
  }

  lemma NothingByPriority()
    ensures ByPriority([])
  {
  }

  lemma OrderedAscends(branches: seq<BranchHyp>)
    ensures ByPriority(Ordered(branches))
  {
    hide WithPriority, Priority, ByPriority;
    var a, b, c, d := WithPriority(branches, 0), WithPriority(branches, 1), WithPriority(branches, 2), WithPriority(branches, 3);
    WithPriorityAgain(branches, 0, 0);
    WithPriorityAgain(branches, 1, 1);
    WithPriorityAgain(branches, 2, 2);
    WithPriorityAgain(branches, 3, 3);
    NothingByPriority();
    ByPriorityAppend([], a, 0);
    assert [] + a == a;
    ByPriorityAppend(a, b, 1);
    ByPriorityAppend(a + b, c, 2);
    ByPriorityAppend(a + b + c, d, 3);
  }

  /** The order is a stable sort: priorities do not decrease, and the hypotheses of one priority
      stand in path order. */
  lemma OrderedIsStable(branches: seq<BranchHyp>, p: nat)
    requires p < 4
    ensures WithPriority(Ordered(branches), p) == WithPriority(branches, p)
    ensures ByPriority(Ordered(branches))
  {
    hide WithPriority, Priority, ByPriority;
    OrderedAscends(branches);
    var a, b, c, d := WithPriority(branches, 0), WithPriority(branches, 1), WithPriority(branches, 2), WithPriority(branches, 3);
    WithPriorityAppend(a + b + c, d, p);
    WithPriorityAppend(a + b, c, p);
    WithPriorityAppend(a, b, p);
    WithPriorityAgain(branches, 0, p);
    WithPriorityAgain(branches, 1, p);
    WithPriorityAgain(branches, 2, p);
    WithPriorityAgain(branches, 3, p);
  }

  function Tally(h: BranchHyp, p: nat): multiset<BranchHyp> {
    if Priority(h) == p then multiset{h} else multiset{}
  }

  lemma PriorityTally(branches: seq<BranchHyp>, p: nat)
    requires |branches| > 0
    ensures multiset(WithPriority(branches, p)) == Tally(branches[0], p) + multiset(WithPriority(branches[1..], p))
  {
  }

  /** Sorting loses and invents no hypothesis. */
  lemma {:induction false} OrderedPermutes(branches: seq<BranchHyp>)
    ensures multiset(Ordered(branches)) == multiset(branches)
  {
    hide WithPriority;
    if |branches| == 0 {
      NothingOrdered();
    } else {
      var rest := branches[1..];
      OrderedPermutes(rest);
      PriorityTally(branches, 0);
      PriorityTally(branches, 1);
      PriorityTally(branches, 2);
      PriorityTally(branches, 3);
      assert branches == [branches[0]] + rest;
    }
  }

  lemma NothingOrdered()
    ensures Ordered([]) == []
  {
  }

  function AllVars(branches: seq<BranchHyp>): seq<Name> {
    if |branches| == 0 then [] else AllVars(branches[..|branches| - 1]) + BranchVars(branches[|branches| - 1])
  }

  function Pool(branches: seq<BranchHyp>): seq<u64> {
    if |branches| == 0 then seq(257, i requires 0 <= i < 257 => i)
    else Pool(branches[..|branches| - 1]) + Neighbourhood(branches[|branches| - 1])
  }

  function Neighbourhood(h: BranchHyp): seq<u64> {
    var im := WrapU(h.imm);
    [im, WrapU(im + 1), WrapU(im - 1)]
  }

  predicate NearImmediate(h: BranchHyp, v: u64) {
    var im: int := WrapU(h.imm);
    v == im || v == WrapU(im + 1) || v == WrapU(im - 1)
  }

  predicate NearAny(branches: seq<BranchHyp>, v: u64) {
    exists i | 0 <= i < |branches| :: NearImmediate(branches[i], v)
  }

  lemma NearAnyStep(branches: seq<BranchHyp>, v: u64)
    requires |branches| > 0
    ensures NearAny(branches, v) <==> NearAny(branches[..|branches| - 1], v) || NearImmediate(branches[|branches| - 1], v)
  {
    hide NearImmediate;
    var init := branches[..|branches| - 1];
    if NearAny(init, v) {
      var i :| 0 <= i < |init| && NearImmediate(init[i], v);
      assert NearImmediate(branches[i], v);
    }
    if NearAny(branches, v) {
      var i :| 0 <= i < |branches| && NearImmediate(branches[i], v);
      assert i < |init| ==> NearImmediate(init[i], v);
    }
  }

  lemma NeighbourhoodIff(h: BranchHyp, v: u64)
    ensures v in Neighbourhood(h) <==> NearImmediate(h, v)
  {
    hide WrapU;
  }

  lemma PoolStep(branches: seq<BranchHyp>, v: u64)
    requires |branches| > 0
    ensures v in Pool(branches) <==> v in Pool(branches[..|branches| - 1]) || NearImmediate(branches[|branches| - 1], v)
  {
    hide Neighbourhood, NearImmediate;
    var init, h := branches[..|branches| - 1], branches[|branches| - 1];
    NeighbourhoodIff(h, v);
    var a, b := Pool(init), Neighbourhood(h);
    assert Pool(branches) == a + b;
    hide Pool;
    assert v in a + b <==> v in a || v in b;
  }

  /** The pool is every value up to 256 and the neighbourhood of every immediate. */
  lemma {:induction false} PoolIff(branches: seq<BranchHyp>, v: u64)
    ensures v in Pool(branches) <==> v <= 256 || NearAny(branches, v)
  {
    if |branches| > 0 {
      PoolStep(branches, v);
      NearAnyStep(branches, v);
      hide Pool, NearImmediate, NearAny;
      PoolIff(branches[..|branches| - 1], v);
    } else {
      var small: seq<u64> := seq(257, i requires 0 <= i < 257 => i);
      assert v <= 256 ==> small[v] == v;
    }
  }

  lemma {:induction false} AllVarsCover(branches: seq<BranchHyp>, i: nat)
    requires i < |branches|
    ensures forall n :: n in BranchVars(branches[i]) ==> n in AllVars(branches)
  {
    if i < |branches| - 1 {
      AllVarsCover(branches[..|branches| - 1], i);
    }
  }

  lemma AllVarsCoverEqualities(branches: seq<BranchHyp>)
    ensures CoversEqualities(branches, AllVars(branches))
  {
    hide AllVars;
    forall i | 0 <= i < |branches| && EqualityPair(branches[i]).Some?
      ensures EqualityPair(branches[i]).value.0 in AllVars(branches) && EqualityPair(branches[i]).value.1 in AllVars(branches)
    {
      AllVarsCover(branches, i);
      var p := EqualityPair(branches[i]).value;
      assert p.0 in BranchVars(branches[i]) && p.1 in BranchVars(branches[i]);
    }
  }

  // ----- the classes in terms of the hypotheses -----

  /** The hypothesis is about the class of `x`: every variable of it is linked to `x`. */
  ghost predicate ClassHyp(branches: seq<BranchHyp>, x: Name, h: BranchHyp) {
    BranchVars(h) != [] && forall y :: y in BranchVars(h) ==> Linked(branches, x, y)
  }

  /** Given to every variable, the value makes all hypotheses about the class of `x` true. */
  ghost predicate SharedWorks(branches: seq<BranchHyp>, x: Name, v: u64) {
    forall i :: 0 <= i < |branches| && ClassHyp(branches, x, branches[i]) ==>
                  True(branches[i], Uniform(map[], BranchVars(branches[i]), v))
  }

  ghost predicate ClassFixable(branches: seq<BranchHyp>, x: Name) {
    exists v :: v in Pool(branches) && SharedWorks(branches, x, v)
  }

  ghost predicate ClassTrue(branches: seq<BranchHyp>, x: Name, env: Env) {
    forall i :: 0 <= i < |branches| && ClassHyp(branches, x, branches[i]) ==> True(branches[i], env)
  }

  /** The classes are the linked variables. */
  ghost predicate Partition(branches: seq<BranchHyp>, classes: Classes) {
    (forall x, y :: x in AllVars(branches) && y in AllVars(branches) ==> (Together(classes, x, y) <==> Linked(branches, x, y)))
    && (forall r, x :: r in classes && x in classes[r] ==> x in AllVars(branches))
    && (forall x :: x in AllVars(branches) ==> Together(classes, x, x))
    && DisjointClasses(classes)
  }

  lemma ClassInternal(branches: seq<BranchHyp>, classes: Classes, s: Name, x: Name, i: nat)
    requires Partition(branches, classes) && s in classes && x in classes[s] && i < |branches|
    ensures ClassHyp(branches, x, branches[i]) <==> Internal(branches[i], classes[s])
  {
    hide AllVars, BranchVars, Linked, DisjointClasses;
    AllVarsCover(branches, i);
    forall y | y in BranchVars(branches[i])
      ensures Linked(branches, x, y) <==> y in classes[s]
    {
      ClassMember(branches, classes, s, x, y);
    }
  }

  lemma ClassMember(branches: seq<BranchHyp>, classes: Classes, s: Name, x: Name, y: Name)
    requires Partition(branches, classes) && s in classes && x in classes[s] && y in AllVars(branches)
    ensures Linked(branches, x, y) <==> y in classes[s]
  {
    hide AllVars, Linked;
    if Together(classes, x, y) {
      var r :| r in classes && x in classes[r] && y in classes[r];
      assert r == s;
    }
  }

  lemma ClassFixableIff(branches: seq<BranchHyp>, classes: Classes, s: Name, x: Name)
    requires Partition(branches, classes) && s in classes && x in classes[s]
    ensures ClassFixable(branches, x) <==> Fixable(branches, classes[s], Pool(branches))
  {
    hide AllVars, BranchVars, Pool, EvalBranch, ClassHyp, Internal, Partition;
    forall v: u64
      ensures SharedWorks(branches, x, v) <==> InternalTrue(branches, classes[s], Uniform(map[], classes[s], v))
    {
      SharedIffInternal(branches, classes, s, x, v);
    }
    hide SharedWorks, InternalTrue, Uniform;
  }

  lemma SharedIffInternal(branches: seq<BranchHyp>, classes: Classes, s: Name, x: Name, v: u64)
    requires Partition(branches, classes) && s in classes && x in classes[s]
    ensures SharedWorks(branches, x, v) <==> InternalTrue(branches, classes[s], Uniform(map[], classes[s], v))
  {
    hide EvalBranch, ClassHyp, Partition;
    forall i | 0 <= i < |branches|
      ensures ClassHyp(branches, x, branches[i]) <==> Internal(branches[i], classes[s])
      ensures Internal(branches[i], classes[s]) ==>
                (True(branches[i], Uniform(map[], BranchVars(branches[i]), v)) <==> True(branches[i], Uniform(map[], classes[s], v)))
    {
      ClassInternal(branches, classes, s, x, i);
      if Internal(branches[i], classes[s]) {
        BranchOnVars(branches[i], Uniform(map[], BranchVars(branches[i]), v), Uniform(map[], classes[s], v));
      }
    }
    hide True, Uniform, Internal, BranchVars;
  }

  lemma ClassTrueIff(branches: seq<BranchHyp>, classes: Classes, s: Name, x: Name, env: Env)
    requires Partition(branches, classes) && s in classes && x in classes[s]
    ensures ClassTrue(branches, x, env) <==> InternalTrue(branches, classes[s], env)
  {
    hide True, ClassHyp, Internal, Partition;
    forall i | 0 <= i < |branches|
      ensures ClassHyp(branches, x, branches[i]) <==> Internal(branches[i], classes[s])
    {
      ClassInternal(branches, classes, s, x, i);
    }
  }

  /** The repair in terms of the hypotheses: every class that one pool value satisfies is true, and
      so is every class that was; only variables of fixable classes are touched. */
  ghost predicate ClassesRepaired(branches: seq<BranchHyp>, env0: Env, env: Env) {
    (forall x :: x in AllVars(branches) && (ClassFixable(branches, x) || ClassTrue(branches, x, env0)) ==>
                   ClassTrue(branches, x, env))
    && env0.Keys <= env.Keys
    && (forall x :: x !in AllVars(branches) || !ClassFixable(branches, x) ==> SameAt(env0, env, x))
    && (AllTrue(branches, env0) ==> env == env0)
  }

  lemma RepairedClasses(branches: seq<BranchHyp>, classes: Classes, env0: Env, env: Env)
    requires Partition(branches, classes) && RepairDone(branches, classes, Pool(branches), env0, env)
    ensures ClassesRepaired(branches, env0, env)
  {
    hide AllVars, Pool, ClassFixable, ClassTrue, Fixable, InternalTrue, SameAt, Linked, DisjointClasses, AllTrue;
    forall x | x in AllVars(branches) && (ClassFixable(branches, x) || ClassTrue(branches, x, env0))
      ensures ClassTrue(branches, x, env)
    {
      assert Together(classes, x, x);
      var s :| s in classes && x in classes[s];
      ClassFixableIff(branches, classes, s, x);
      ClassTrueIff(branches, classes, s, x, env0);
      ClassTrueIff(branches, classes, s, x, env);
    }
    forall x | x !in AllVars(branches) || !ClassFixable(branches, x)
      ensures SameAt(env0, env, x)
    {
      forall s | s in classes && x in classes[s]
        ensures !Fixable(branches, classes[s], Pool(branches))
      {
        ClassFixableIff(branches, classes, s, x);
      }
    }
  }

  /** The hypothesis is about one class, and one pool value satisfies that class. */
  ghost predicate OfFixableClass(branches: seq<BranchHyp>, h: BranchHyp) {
    exists x :: x in AllVars(branches) && ClassHyp(branches, x, h) && ClassFixable(branches, x)
  }

  ghost predicate ClassByClass(branches: seq<BranchHyp>) {
    forall i :: 0 <= i < |branches| ==> OfFixableClass(branches, branches[i])
  }

  lemma ClassByClassTrue(branches: seq<BranchHyp>, env0: Env, env: Env)
    requires ClassByClass(branches) && ClassesRepaired(branches, env0, env)
    ensures AllTrue(branches, env)
  {
    hide AllVars, ClassHyp, ClassFixable, True;
    forall i | 0 <= i < |branches|
      ensures True(branches[i], env)
    {
      assert OfFixableClass(branches, branches[i]);
      var x :| x in AllVars(branches) && ClassHyp(branches, x, branches[i]) && ClassFixable(branches, x);
      assert ClassTrue(branches, x, env);
    }
  }

  const ROUNDS: nat := 8

  /** The three passes: the greedy result is repaired and then climbed from, and the end of the climb
      is the answer if every hypothesis is true there. So no assignment is returned that leaves a
      hypothesis undefined or false; when the greedy pass already succeeds, its result is the answer;
      and a witness is always found when the hypotheses can be satisfied class by class. */
  method BuildBranchWitness(branches: seq<BranchHyp>, vars: seq<Name>)
    returns (r: Option<Env>, ghost repaired: Env, ghost climbed: Env)
    ensures var order := Ordered(branches);
            var filled := ZeroFilled(GreedyEnv(order, Candidates, |order|), vars);
            |branches| > 0 ==>
              ClassesRepaired(branches, filled, repaired)
              && ClimbDone(branches, AllVars(branches), Pool(branches), ROUNDS, repaired, climbed)
              && (AllTrue(branches, filled) ==> r == Some(filled))
    ensures r == if |branches| > 0 && AllTrue(branches, climbed) then Some(climbed) else None
    ensures |branches| > 0 && ClassByClass(branches) ==> r.Some?
  {
    hide EvalBranch, GreedyEnv, Ordered, AllTrue, ZeroFilled, Score, Pool, AllVars, Candidates, RepairDone, ClassesRepaired,
      ClassByClass, Partition, ClimbDone;
    repaired, climbed := map[], map[];
    if |branches| == 0 {
      return None, repaired, climbed;
    }
    var env := GreedyPass(Ordered(branches), Candidates);
    env := ZeroFill(env, vars);
    ghost var filled := env;
    var pool, allVars := Pool(branches), AllVars(branches);
    AllVarsCoverEqualities(branches);
    var classes := EqualityClasses(branches, allVars);
    PartitionMade(branches, classes);
    env := Repair(branches, classes, pool, env);
    repaired := env;
    RepairedClasses(branches, classes, filled, repaired);
    if ClassByClass(branches) {
      ClassByClassTrue(branches, filled, repaired);
    }
    env := HillClimb(branches, allVars, pool, ROUNDS, env);
    climbed := env;
    FullKept(branches, filled, repaired, climbed);
    r := if AllTrue(branches, env) then Some(env) else None;
  }

  lemma PartitionMade(branches: seq<BranchHyp>, classes: Classes)
    requires forall x, y :: x in AllVars(branches) && y in AllVars(branches) ==> (Together(classes, x, y) <==> Linked(branches, x, y))
    requires forall r, x :: r in classes && x in classes[r] ==> x in AllVars(branches)
    requires forall x :: x in AllVars(branches) ==> Together(classes, x, x)
    requires forall r, s, x :: r in classes && s in classes && x in classes[r] && x in classes[s] ==> r == s
    ensures Partition(branches, classes) && DisjointClasses(classes)
  {
    hide AllVars, Linked, Together;
  }

  /** A full score passes through the later passes unchanged. */
  lemma FullKept(branches: seq<BranchHyp>, filled: Env, repaired: Env, climbed: Env)
    requires ClassesRepaired(branches, filled, repaired)
    requires ClimbDone(branches, AllVars(branches), Pool(branches), ROUNDS, repaired, climbed)
    ensures AllTrue(branches, filled) ==> climbed == filled
    ensures AllTrue(branches, repaired) ==> climbed == repaired
  {
    hide AllVars, Pool, AllTrue, Score;
  }
}
