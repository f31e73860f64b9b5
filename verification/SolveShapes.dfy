/** What steering can reach: for an expression in one unbound variable, exactly the values the
    expression can take. */
module SolveShapes {
  import opened Words
  import opened SymExpr

  // ----- when an expression evaluates -----

  /** Every variable is bound, nothing is rendered text, no bare constant is negative, and plain sums
      and differences stay within a word. */
  ghost predicate Definable(e: Expr, env: Env)
    decreases e, 1
  {
    match e
    case InitReg(n) => n in env
    case InitMem(n) => n in env
    case Const(k) => k >= 0
    case ToU64(a) => a.Const? || Definable(a, env)
    case Unary(_, a) => Definable(a, env)
    case Binary(op, a, b) =>
      Definable(a, env) && Definable(b, env)
      && (op.NatAdd? ==> Mean(a, Total(env)) + Mean(b, Total(env)) < TWO64)
      && (op.CleanSub? ==> Mean(b, Total(env)) <= Mean(a, Total(env)))
    case ByteCombo(bytes) => DefinableAll(bytes, env)
    case Raw(_) => false
    case _ => true
  }

  ghost predicate DefinableAll(es: seq<Expr>, env: Env)
    decreases es, 0
  {
    |es| > 0 ==> Definable(es[0], env) && DefinableAll(es[1..], env)
  }

  /** Evaluation is defined exactly there, and is then the meaning. */
  lemma {:induction false} EvalIff(e: Expr, env: Env)
    ensures Eval(e, env) == if Definable(e, env) then Some(Mean(e, Total(env))) else None
    decreases e, 1
  {
    MeanExtends(e, env, Total(env));
    hide Mean, Total;
    match e
    case ToU64(a) => EvalIff(a, env);
    case Unary(_, a) => EvalIff(a, env);
    case Binary(_, a, b) =>
      EvalIff(a, env);
      EvalIff(b, env);
    case ByteCombo(bytes) => EvalComboIff(bytes, env);
    case _ =>
  }

  lemma {:induction false} EvalComboIff(es: seq<Expr>, env: Env)
    ensures EvalCombo(es, env).Some? <==> DefinableAll(es, env)
    decreases es, 0
  {
    hide Mean, Total;
    if |es| > 0 {
      EvalIff(es[0], env);
      EvalComboIff(es[1..], env);
    }
  }

  // ----- what steering reaches -----

  /** The other operand is known and this one carries the variable; differences and sums wrap. */
  ghost predicate Wraps(op: BinaryOp) {
    op.WrapAdd? || op.WrapSub?
  }

  /** `n` reaches the value through sums and differences with known operands only. */
  ghost predicate Onto(e: Expr, n: Name, env: Env) {
    match e
    case InitReg(m) => m == n && n !in env
    case InitMem(m) => m == n && n !in env
    case ToU64(a) => Onto(a, n, env)
    case Binary(op, a, b) =>
      Wraps(op) && ((Onto(a, n, env) && Eval(b, env).Some?) || (Eval(a, env).Some? && Onto(b, n, env)))
    case _ => false
  }

  /** The same with frame offsets as well, and with a remainder or mask directly above a wrapping
      part. */
  ghost predicate Steerable(e: Expr, n: Name, env: Env) {
    match e
    case InitReg(m) => m == n && n !in env
    case InitMem(m) => m == n && n !in env
    case ToU64(a) => Steerable(a, n, env)
    case Unary(op, a) => (op.ModBy? || op.AndImm?) && Onto(a, n, env)
    case Binary(op, a, b) =>
      (Wraps(op) || op.NatAdd?)
      && ((Steerable(a, n, env) && Eval(b, env).Some?) || (Eval(a, env).Some? && Steerable(b, n, env)))
    case _ => false
  }

  lemma {:induction false} OntoUndefined(e: Expr, n: Name, env: Env)
    requires Onto(e, n, env)
    ensures Eval(e, env).None? && n !in env
  {
    match e
    case ToU64(a) => OntoUndefined(a, n, env);
    case Binary(_, a, b) =>
      if Onto(a, n, env) {
        OntoUndefined(a, n, env);
      } else {
        OntoUndefined(b, n, env);
      }
    case _ =>
  }

  lemma {:induction false} SteerableUndefined(e: Expr, n: Name, env: Env)
    requires Steerable(e, n, env)
    ensures Eval(e, env).None? && n !in env
  {
    match e
    case ToU64(a) => SteerableUndefined(a, n, env);
    case Unary(_, a) => OntoUndefined(a, n, env);
    case Binary(_, a, b) =>
      if Steerable(a, n, env) {
        SteerableUndefined(a, n, env);
      } else {
        SteerableUndefined(b, n, env);
      }
    case _ =>
  }

  /** Steering bound exactly the variable `n`. */
  ghost predicate BindsOnly(r: Solved, n: Name, env: Env) {
    n in r.env && r.env == env[n := r.env[n]]
  }

  /** A part reached by wrapping operations alone is steered to every target. */
  lemma {:induction false} OntoSolved(e: Expr, n: Name, target: u64, env: Env)
    requires Onto(e, n, env)
    ensures Solve(e, target, env).ok && BindsOnly(Solve(e, target, env), n, env)
  {
    OntoUndefined(e, n, env);
    match e
    case ToU64(a) => OntoSolved(a, n, target, env);
    case Binary(op, a, b) =>
      if Onto(a, n, env) {
        OntoUndefined(a, n, env);
        OntoSolved(a, n, LeftTarget(op, target, Eval(b, env).value).value, env);
      } else {
        OntoUndefined(b, n, env);
        OntoSolved(b, n, RightTarget(op, target, Eval(a, env).value).value, env);
      }
    case _ =>
  }

  /** Some value of `n` gives the expression the value `target`. */
  ghost predicate CanTake(e: Expr, n: Name, target: u64, env: Env) {
    exists v: u64 :: ValueAt(e, n, v, env) == Some(target)
  }

  ghost function ValueAt(e: Expr, n: Name, v: u64, env: Env): Option<u64> {
    Eval(e, env[n := v])
  }

  lemma {:induction false} AndTwice(x: nat, y: nat, k: nat)
    ensures Bits(BitAnd, Bits(BitAnd, x, y, k), y, k) == Bits(BitAnd, x, y, k)
  {
    if k > 0 {
      AndTwice(x / 2, y / 2, k - 1);
      var b, rest := BitValue(BitAnd, x % 2, y % 2), Bits(BitAnd, x / 2, y / 2, k - 1);
      assert Bits(BitAnd, x, y, k) == b + 2 * rest;
      assert (b + 2 * rest) % 2 == b && (b + 2 * rest) / 2 == rest;
      assert BitValue(BitAnd, b, y % 2) == b;
    }
  }

  /** The values a remainder or a mask can take are its fixed points. */
  lemma UnaryFixes(op: UnaryOp, v: u64)
    requires op.ModBy? || op.AndImm?
    ensures Fixed(op, ApplyUnary(op, v))
  {
    if op.AndImm? {
      AndTwice(v, WrapU(op.imm), 64);
    }
  }

  /** The operand targets are forced: no other value of the operand gives the target. */
  lemma RightForced(op: BinaryOp, target: u64, va: u64, v: u64)
    requires (Wraps(op) || op.NatAdd?) && ApplyBinary(op, va, v) == Some(target)
    ensures RightTarget(op, target, va) == Some(v)
  {
  }

  lemma LeftForced(op: BinaryOp, target: u64, vb: u64, v: u64)
    requires (Wraps(op) || op.NatAdd?) && ApplyBinary(op, v, vb) == Some(target)
    ensures LeftTarget(op, target, vb) == Some(v)
  {
  }

  lemma {:induction false} SolveReaches(e: Expr, n: Name, target: u64, env: Env, v: u64)
    requires Steerable(e, n, env) && Eval(e, env[n := v]) == Some(target)
    ensures Solve(e, target, env).ok
    decreases e, 1
  {
    SteerableUndefined(e, n, env);
    match e
    case ToU64(a) =>
      SteerableUndefined(a, n, env);
      SolveReaches(a, n, target, env, v);
    case Unary(op, a) =>
      UnaryFixes(op, Eval(a, env[n := v]).value);
      OntoSolved(a, n, target, env);
    case Binary(op, a, b) => BinaryReaches(e, op, a, b, n, target, env, v);
    case _ =>
  }

  lemma {:induction false} BinaryReaches(e: Expr, op: BinaryOp, a: Expr, b: Expr, n: Name, target: u64, env: Env, v: u64)
    requires e == Binary(op, a, b) && Steerable(e, n, env) && Eval(e, env[n := v]) == Some(target)
    ensures Solve(e, target, env).ok
    decreases e, 0
  {
    hide RightTarget, LeftTarget, ApplyBinary, Wraps;
    SteerableUndefined(e, n, env);
    var env' := env[n := v];
    if Steerable(a, n, env) && Eval(b, env).Some? {
      SteerableUndefined(a, n, env);
      EvalMonotone(b, env, env');
      LeftForced(op, target, Eval(b, env).value, Eval(a, env').value);
      SolveReaches(a, n, Eval(a, env').value, env, v);
    } else {
      SteerableUndefined(b, n, env);
      EvalMonotone(a, env, env');
      RightForced(op, target, Eval(a, env).value, Eval(b, env').value);
      SolveReaches(b, n, Eval(b, env').value, env, v);
    }
  }

  lemma {:induction false} SolveBinds(e: Expr, n: Name, target: u64, env: Env)
    requires Steerable(e, n, env) && Solve(e, target, env).ok
    ensures BindsOnly(Solve(e, target, env), n, env)
  {
    SteerableUndefined(e, n, env);
    match e
    case ToU64(a) => SolveBinds(a, n, target, env);
    case Unary(op, a) => OntoSolved(a, n, target, env);
    case Binary(op, a, b) =>
      if Steerable(a, n, env) && Eval(b, env).Some? {
        SteerableUndefined(a, n, env);
        SolveBinds(a, n, LeftTarget(op, target, Eval(b, env).value).value, env);
      } else {
        SteerableUndefined(b, n, env);
        SolveBinds(b, n, RightTarget(op, target, Eval(a, env).value).value, env);
      }
    case _ =>
  }

  /** Steering is exact: it succeeds if and only if some value of the unbound variable gives the
      expression the target, and then it binds that variable and no other. */
  lemma SolveIff(e: Expr, n: Name, target: u64, env: Env)
    requires Steerable(e, n, env)
    ensures Solve(e, target, env).ok <==> CanTake(e, n, target, env)
    ensures Solve(e, target, env).ok ==> BindsOnly(Solve(e, target, env), n, env)
  {
    hide Solve, Steerable, Eval;
    if Solve(e, target, env).ok {
      SolveBinds(e, n, target, env);
      SolveSound(e, target, env);
      assert ValueAt(e, n, Solve(e, target, env).env[n], env) == Some(target);
    }
    if CanTake(e, n, target, env) {
      var v: u64 :| ValueAt(e, n, v, env) == Some(target);
      SolveReaches(e, n, target, env, v);
    }
  }

  // ----- byte combinations -----

  /** Unbound variables, no two the same. */
  ghost predicate Fresh(bytes: seq<Expr>, env: Env) {
    (forall i :: 0 <= i < |bytes| ==> bytes[i].IsVar() && bytes[i].name !in env)
    && forall i, j :: 0 <= i < j < |bytes| ==> bytes[i].name != bytes[j].name
  }

  lemma FreshRest(bytes: seq<Expr>, b: u64, env: Env)
    requires |bytes| > 0 && Fresh(bytes, env)
    ensures Fresh(bytes[1..], env[bytes[0].name := b])
    ensures Solve(bytes[0], b, env) == Solved(true, env[bytes[0].name := b])
    ensures Eval(bytes[0], env[bytes[0].name := b]) == Some(b)
  {
    var rest, env' := bytes[1..], env[bytes[0].name := b];
    forall i | 0 <= i < |rest|
      ensures rest[i].IsVar() && rest[i].name !in env'
    {
      assert rest[i] == bytes[i + 1];
    }
  }

  lemma {:induction false} BytesSolved(bytes: seq<Expr>, target: u64, env: Env)
    requires Fresh(bytes, env) && |bytes| <= 8
    ensures var r := SolveBytes(bytes, target, env);
            r.ok && Extends(env, r.env) && EvalCombo(bytes, r.env) == Some(target % Pow256(|bytes|))
  {
    hide Solve, Eval, Fresh, WrapU;
    if |bytes| > 0 {
      var rest, b, name := bytes[1..], target % 256, NameOf(bytes, env);
      FreshRest(bytes, b, env);
      var env' := env[name := b];
      BytesSolved(rest, target / 256, env');
      var r := SolveBytes(bytes, target, env);
      assert r == SolveBytes(rest, target / 256, env');
      EvalMonotone(bytes[0], env', r.env);
      hide SolveBytes, Pow256;
      ByteStep(target, |rest|);
    }
  }

  ghost function NameOf(bytes: seq<Expr>, env: Env): (n: Name)
    requires |bytes| > 0 && Fresh(bytes, env)
    ensures bytes[0].IsVar() && n == bytes[0].name && n !in env
  {
    bytes[0].name
  }

  lemma ByteStep(target: u64, k: nat)
    ensures Pow256(k + 1) == 256 * Pow256(k)
    ensures WrapU((target / 256) % Pow256(k) * 256 + target % 256) == target % Pow256(k + 1)
  {
    assert Pow256(k + 1) == 256 * Pow256(k);
    hide Pow256, WrapU;
    ModStep(target, Pow256(k));
    ModBelow(target, Pow256(k + 1));
    WrapId(target % Pow256(k + 1));
  }

  lemma ModBelow(x: nat, m: nat)
    requires m > 0
    ensures 0 <= x % m <= x
  {
    if x < m {
      assert x % m == x;
    }
  }

  /** A combination of fresh byte variables is steered to exactly the targets it has room for; eight
      of them to every target. */
  lemma ComboSolvedIff(bytes: seq<Expr>, target: u64, env: Env)
    requires 0 < |bytes| <= 8 && Fresh(bytes, env)
    ensures Solve(ByteCombo(bytes), target, env).ok <==> target < Pow256(|bytes|)
    ensures |bytes| == 8 ==> Solve(ByteCombo(bytes), target, env).ok
  {
    Pow256Values();
    Pow256Positive(|bytes|);
    ComboUndefined(bytes, env);
    BytesSolved(bytes, target, env);
    hide Pow256, SolveBytes, EvalCombo;
    ModSmallIff(target, Pow256(|bytes|));
  }

  lemma ModSmallIff(x: nat, m: nat)
    requires m > 0
    ensures x % m == x <==> x < m
  {
  }

  lemma {:induction false} Pow256Positive(n: nat)
    ensures Pow256(n) > 0
  {
  }

  lemma ComboUndefined(bytes: seq<Expr>, env: Env)
    requires |bytes| > 0 && Fresh(bytes, env)
    ensures Eval(ByteCombo(bytes), env).None?
  {
    assert Eval(bytes[0], env).None?;
  }
}
