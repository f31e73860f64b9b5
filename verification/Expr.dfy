/** The lifter's symbolic expressions: evaluation, substitution, the steering inverse,
    and the canonical (root, displacement) form of an address. */
module SymExpr {
  import opened Words
  import opened Alu

  datatype Width = Byte | Halfword | Word | Dword

  function Len(w: Width): (n: nat)
    ensures 1 <= n <= 8
  {
    match w
    case Byte => 1
    case Halfword => 2
    case Word => 4
    case Dword => 8
  }

  /** Theorem variables. `RegOld(1)` is `baseAddr`, `RegOld(n)` is `vR<n>Old`, and
      `OldMem(w, i)` is `oldMem<w>_<i>`; `Other` stands for any further binder. */
  datatype Name = RegOld(reg: nat) | OldMem(width: Width, index: nat) | Other(text: string)

  datatype UnaryOp = ModBy(m: u64) | AndImm(imm: i64) | LshImm(imm: i64) | RshImm(imm: i64)

  /** `NatAdd` and `CleanSub` are plain natural-number operations, the others wrap. */
  datatype BinaryOp = WrapAdd | WrapSub | WrapMul | NatAdd | CleanSub

  /** Symbolic values. The source has one constructor per operator; here they are grouped under
      `Unary`, `Binary` and `StImm`. `Raw` is rendered text, `RawConst` text with a known value; the
      text is kept as the operation and the operands it renders. */
  datatype Expr =
    | InitReg(name: Name)
    | InitMem(name: Name)
    | Const(k: i64)
    | ToU64(e: Expr)
    | Unary(uop: UnaryOp, a: Expr)
    | Binary(bop: BinaryOp, x: Expr, y: Expr)
    | StImm(width: Width, imm: i64)
    | ByteCombo(bytes: seq<Expr>)
    | Raw(text: Rendering)
    | RawConst(text: Rendering, v: u64)
  {
    predicate IsVar() {
      InitReg? || InitMem?
    }
  }

  /** What a rendered term applies: an arithmetic operation, a byte-order conversion of `bytes`
      bytes, or the placeholder of an unsupported access. */
  datatype RawOp = RawAlu(size: Size, op: AluOp) | RawEndian(bytes: nat, big: bool) | Placeholder

  datatype Rendering = Rendering(op: RawOp, args: seq<Expr>)

  type Env = map<Name, u64>

  // ----- evaluation -----

  function ApplyUnary(op: UnaryOp, v: u64): u64 {
    match op
    case ModBy(m) => if m == 0 then v else v % m
    case AndImm(imm) => Bitwise(BitAnd, v, WrapU(imm))
    case LshImm(imm) => ShiftLeft(v, WrapU(imm))
    case RshImm(imm) => ShiftRight(v, WrapU(imm))
  }

  function ApplyBinary(op: BinaryOp, x: u64, y: u64): Option<u64> {
    match op
    case WrapAdd => Some(WrapU(x + y))
    case WrapSub => Some(WrapU(x - y))
    case WrapMul => Some(WrapU(x * y))
    case NatAdd => if x + y < TWO64 then Some(x + y) else None
    case CleanSub => if y <= x then Some(x - y) else None
  }

  function EvalUnary(op: UnaryOp, v: Option<u64>): Option<u64> {
    if v.None? then None else Some(ApplyUnary(op, v.value))
  }

  function EvalBinary(op: BinaryOp, x: Option<u64>, y: Option<u64>): Option<u64> {
    if x.None? || y.None? then None else ApplyBinary(op, x.value, y.value)
  }

  function HornerStep(acc: Option<u64>, b: Option<u64>): Option<u64> {
    if acc.None? || b.None? then None else Some(WrapU(acc.value * 256 + b.value))
  }

  function Eval(e: Expr, env: Env): Option<u64>
    decreases e, 1
  {
    match e
    case InitReg(n) => if n in env then Some(env[n]) else None
    case InitMem(n) => if n in env then Some(env[n]) else None
    case Const(k) => if k >= 0 then Some(k) else None
    case ToU64(inner) => if inner.Const? then Some(WrapU(inner.k)) else Eval(inner, env)
    case Unary(op, a) => EvalUnary(op, Eval(a, env))
    case Binary(op, a, b) => EvalBinary(op, Eval(a, env), Eval(b, env))
    case StImm(w, imm) => Some(WrapU(imm) % Pow256(Len(w)))
    case ByteCombo(bytes) => EvalCombo(bytes, env)
    case Raw(_) => None
    case RawConst(_, v) => Some(v)
  }

  /** The Horner fold from the most significant byte; one undefined byte makes it undefined. */
  function EvalCombo(bytes: seq<Expr>, env: Env): Option<u64>
    decreases bytes, 0
  {
    if |bytes| == 0 then Some(0)
    else HornerStep(EvalCombo(bytes[1..], env), Eval(bytes[0], env))
  }

  ghost predicate Extends(env: Env, env': Env) {
    forall n :: n in env ==> n in env' && env'[n] == env[n]
  }

  /** Evaluation is monotone: a value once defined survives every extension. */
  lemma {:induction false} EvalMonotone(e: Expr, env: Env, env': Env)
    requires Extends(env, env')
    ensures Eval(e, env).Some? ==> Eval(e, env') == Eval(e, env)
    decreases e, 1
  {
    match e
    case ToU64(inner) => EvalMonotone(inner, env, env');
    case Unary(_, a) => EvalMonotone(a, env, env');
    case Binary(_, a, b) => EvalMonotone(a, env, env'); EvalMonotone(b, env, env');
    case ByteCombo(bytes) => EvalComboMonotone(bytes, env, env');
    case _ =>
  }

  lemma {:induction false} EvalComboMonotone(bytes: seq<Expr>, env: Env, env': Env)
    requires Extends(env, env')
    ensures EvalCombo(bytes, env).Some? ==> EvalCombo(bytes, env') == EvalCombo(bytes, env)
    decreases bytes, 0
  {
    if |bytes| > 0 {
      EvalComboMonotone(bytes[1..], env, env');
      EvalMonotone(bytes[0], env, env');
    }
  }

  // ----- meaning -----

  /** A value for every theorem variable. */
  type Assignment = Name -> u64

  /** The plain sum and difference are taken as machine words too. */
  function MeanBinary(op: BinaryOp, x: u64, y: u64): u64 {
    match op
    case WrapAdd => WrapU(x + y)
    case WrapSub => WrapU(x - y)
    case WrapMul => WrapU(x * y)
    case NatAdd => WrapU(x + y)
    case CleanSub => WrapU(x - y)
  }

  /** What rendered text denotes; unary operations have one operand. */
  function RawMean(op: RawOp, vs: seq<u64>): u64 {
    match op
    case RawAlu(size, o) =>
      if |vs| == 2 then AluValue(size, o, vs[0], vs[1])
      else if |vs| == 1 then AluValue(size, o, vs[0], vs[0])
      else 0
    case RawEndian(n, big) => if |vs| == 1 && n <= 8 then EndianValue(vs[0], n, big) else 0
    case Placeholder => 0
  }

  /** The word every expression denotes under an assignment, rendered text included. */
  function Mean(e: Expr, env: Assignment): u64
    decreases e, 1
  {
    match e
    case InitReg(n) => env(n)
    case InitMem(n) => env(n)
    case Const(k) => WrapU(k)
    case ToU64(a) => Mean(a, env)
    case Unary(op, a) => ApplyUnary(op, Mean(a, env))
    case Binary(op, a, b) => MeanBinary(op, Mean(a, env), Mean(b, env))
    case StImm(w, imm) => WrapU(imm) % Pow256(Len(w))
    case ByteCombo(bytes) => MeanCombo(bytes, env)
    case Raw(text) => RawMean(text.op, MeanAll(text.args, env))
    case RawConst(_, v) => v
  }

  function MeanCombo(bytes: seq<Expr>, env: Assignment): u64
    decreases bytes, 0
  {
    if |bytes| == 0 then 0 else WrapU(MeanCombo(bytes[1..], env) * 256 + Mean(bytes[0], env))
  }

  function MeanAll(es: seq<Expr>, env: Assignment): (vs: seq<u64>)
    ensures |vs| == |es|
    decreases es, 0
  {
    if |es| == 0 then [] else [Mean(es[0], env)] + MeanAll(es[1..], env)
  }

  /** The assignment that extends a partial one by zeros. */
  function Total(env: Env): Assignment {
    (n: Name) => if n in env then env[n] else 0
  }

  /** The meaning extends evaluation: where `eval_expr` gives a value, it is the meaning under
      every assignment that extends the environment. */
  lemma {:induction false} MeanExtends(e: Expr, env: Env, full: Assignment)
    requires forall n :: n in env ==> full(n) == env[n]
    ensures Eval(e, env).Some? ==> Eval(e, env) == Some(Mean(e, full))
    decreases e, 1
  {
    hide WrapU, Pow256, Pow2, Bitwise;
    match e
    case Const(k) =>
      if k >= 0 {
        WrapId(k);
      }
    case ToU64(a) => MeanExtends(a, env, full);
    case Unary(_, a) => MeanExtends(a, env, full);
    case Binary(op, a, b) =>
      MeanExtends(a, env, full);
      MeanExtends(b, env, full);
      BinaryExtends(op, Mean(a, full), Mean(b, full));
    case ByteCombo(bytes) => MeanComboExtends(bytes, env, full);
    case _ =>
  }

  lemma BinaryExtends(op: BinaryOp, x: u64, y: u64)
    ensures ApplyBinary(op, x, y).Some? ==> ApplyBinary(op, x, y) == Some(MeanBinary(op, x, y))
  {
    if x + y < TWO64 {
      WrapId(x + y);
    }
    if y <= x {
      WrapId(x - y);
    }
  }

  lemma {:induction false} MeanComboExtends(bytes: seq<Expr>, env: Env, full: Assignment)
    requires forall n :: n in env ==> full(n) == env[n]
    ensures EvalCombo(bytes, env).Some? ==> EvalCombo(bytes, env) == Some(MeanCombo(bytes, full))
    decreases bytes, 0
  {
    hide WrapU;
    if |bytes| > 0 {
      MeanComboExtends(bytes[1..], env, full);
      MeanExtends(bytes[0], env, full);
    }
  }

  // ----- simultaneous substitution -----

  type Subst = map<Name, Expr>

  function Substitute(e: Expr, s: Subst): Expr
    decreases e, 1
  {
    match e
    case InitReg(n) => if n in s then s[n] else e
    case InitMem(n) => if n in s then s[n] else e
    case ToU64(a) => ToU64(Substitute(a, s))
    case Unary(op, a) => Unary(op, Substitute(a, s))
    case Binary(op, a, b) => Binary(op, Substitute(a, s), Substitute(b, s))
    case ByteCombo(bytes) => ByteCombo(SubstituteAll(bytes, s))
    case _ => e
  }

  function SubstituteAll(es: seq<Expr>, s: Subst): seq<Expr>
    decreases es, 0
  {
    if |es| == 0 then [] else [Substitute(es[0], s)] + SubstituteAll(es[1..], s)
  }

  ghost predicate ReplacementsEvaluate(s: Subst, env: Env) {
    forall n :: n in s ==> Eval(s[n], env).Some?
  }

  /** `env` with every replaced variable bound to the value of its replacement. */
  ghost function UpdatedBy(env: Env, s: Subst): Env
    requires ReplacementsEvaluate(s, env)
  {
    map n | n in env.Keys + s.Keys :: if n in s then Eval(s[n], env).value else env[n]
  }

  /** Substitution commutes with evaluation. */
  lemma {:induction false} SubstituteCommutes(e: Expr, s: Subst, env: Env)
    requires ReplacementsEvaluate(s, env)
    ensures Eval(Substitute(e, s), env) == Eval(e, UpdatedBy(env, s))
    decreases e, 1
  {
    match e
    case ToU64(a) => SubstituteCommutes(a, s, env);
    case Unary(_, a) => SubstituteCommutes(a, s, env);
    case Binary(_, a, b) => SubstituteCommutes(a, s, env); SubstituteCommutes(b, s, env);
    case ByteCombo(bytes) => SubstituteAllCommutes(bytes, s, env);
    case _ =>
  }

  lemma {:induction false} SubstituteAllCommutes(es: seq<Expr>, s: Subst, env: Env)
    requires ReplacementsEvaluate(s, env)
    ensures EvalCombo(SubstituteAll(es, s), env) == EvalCombo(es, UpdatedBy(env, s))
    decreases es, 0
  {
    if |es| > 0 {
      SubstituteCommutes(es[0], s, env);
      SubstituteAllCommutes(es[1..], s, env);
      assert SubstituteAll(es, s)[1..] == SubstituteAll(es[1..], s);
    }
  }

  /** The proviso is needed: a replacement without a value can still acquire one under `ToU64`. */
  lemma SubstituteNeedsValues()
    ensures var n, env := RegOld(2), map[];
            var e, s := ToU64(InitReg(n)), map[n := Const(-1)];
            Eval(s[n], env).None? && Eval(e, env).None? && Eval(Substitute(e, s), env).Some?
  {
    var n := RegOld(2);
    var s: Subst := map[n := Const(-1)];
    assert Substitute(InitReg(n), s) == Const(-1);
  }

  // ----- steering one unknown -----

  datatype Solved = Solved(ok: bool, env: Env)

  /** Bind the single unbound variable of an invertible expression so that it takes the value
      `target`. The environment comes back extended also on failure. */
  function Solve(e: Expr, target: u64, env: Env): (r: Solved)
    decreases e, 1
  {
    var known := Eval(e, env);
    if known.Some? then Solved(known.value == target, env)
    else
      match e
      case InitReg(n) => Solved(true, env[n := target])
      case InitMem(n) => Solved(true, env[n := target])
      case ToU64(inner) => Solve(inner, target, env)
      case Unary(op, a) =>
        if Fixed(op, target) then Solve(a, target, env) else Solved(false, env)
      case Binary(op, a, b) =>
        var va, vb := Eval(a, env), Eval(b, env);
        if va.Some? && (op.WrapSub? ==> vb.None?) then
          var t := RightTarget(op, target, va.value);
          if t.None? then Solved(false, env) else Solve(b, t.value, env)
        else if vb.Some? then
          var t := LeftTarget(op, target, vb.value);
          if t.None? then Solved(false, env) else Solve(a, t.value, env)
        else Solved(false, env)
      case ByteCombo(bytes) =>
        var r := SolveBytes(bytes, target, env);
        Solved(r.ok && Eval(e, r.env) == Some(target), r.env)
      case _ => Solved(false, env)
  }

  /** Element `i` is steered to byte `i` of the target, elements past the eighth to 0; the first
      failure stops the loop. Dividing by 256 at each element selects the next byte. */
  function SolveBytes(bytes: seq<Expr>, target: u64, env: Env): (r: Solved)
    decreases bytes, 0
  {
    if |bytes| == 0 then Solved(true, env)
    else
      var first := Solve(bytes[0], target % 256, env);
      if !first.ok then first else SolveBytes(bytes[1..], target / 256, first.env)
  }

  /** The unary operators that can be steered are those of which the target is a fixed point. */
  predicate Fixed(op: UnaryOp, target: u64) {
    match op
    case ModBy(m) => m == 0 || target < m
    case AndImm(imm) => Bitwise(BitAnd, target, WrapU(imm)) == target
    case _ => false
  }

  /** What the right operand must be when the left one is `va`. */
  function RightTarget(op: BinaryOp, target: u64, va: u64): Option<u64> {
    match op
    case WrapAdd => Some(WrapU(target - va))
    case WrapSub => Some(WrapU(va - target))
    case NatAdd => if target < va then None else Some(target - va)
    case _ => None
  }

  /** What the left operand must be when the right one is `vb`. */
  function LeftTarget(op: BinaryOp, target: u64, vb: u64): Option<u64> {
    match op
    case WrapAdd => Some(WrapU(target - vb))
    case WrapSub => Some(WrapU(target + vb))
    case NatAdd => if target < vb then None else Some(target - vb)
    case _ => None
  }

  lemma FixedSound(op: UnaryOp, target: u64)
    requires Fixed(op, target)
    ensures ApplyUnary(op, target) == target
  {
  }

  lemma RightTargetSound(op: BinaryOp, target: u64, va: u64)
    requires RightTarget(op, target, va).Some?
    ensures ApplyBinary(op, va, RightTarget(op, target, va).value) == Some(target)
  {
    hide WrapU, WrapI;
    WrapId(target);
    match op
    case WrapAdd =>
      WrapIsCong(target - va);
      CongAdd(WrapU(target - va), target - va, va, va);
    case WrapSub =>
      WrapIsCong(va - target);
      CongAdd(va, va, WrapU(va - target), va - target);
    case NatAdd =>
  }

  lemma LeftTargetSound(op: BinaryOp, target: u64, vb: u64)
    requires LeftTarget(op, target, vb).Some?
    ensures ApplyBinary(op, LeftTarget(op, target, vb).value, vb) == Some(target)
  {
    hide WrapU, WrapI;
    WrapId(target);
    match op
    case WrapAdd =>
      WrapIsCong(target - vb);
      CongAdd(WrapU(target - vb), target - vb, vb, vb);
    case WrapSub =>
      WrapIsCong(target + vb);
      CongAdd(WrapU(target + vb), target + vb, vb, vb);
    case NatAdd =>
  }

  /** Steering only extends the environment, and when it reports success the expression has
      the requested value. */
  lemma {:induction false} SolveSound(e: Expr, target: u64, env: Env)
    ensures Extends(env, Solve(e, target, env).env)
    ensures Solve(e, target, env).ok ==> Eval(e, Solve(e, target, env).env) == Some(target)
    decreases e, 1
  {
    if Eval(e, env).None? {
      match e
      case ToU64(inner) => SolveSound(inner, target, env);
      case Unary(op, a) =>
        if Fixed(op, target) {
          SolveSound(a, target, env);
          FixedSound(op, target);
        }
      case Binary(op, a, b) => SolveBinarySound(e, op, a, b, target, env);
      case ByteCombo(bytes) => SolveBytesExtends(bytes, target, env);
      case _ =>
    }
  }

  lemma {:induction false} SolveBinarySound(e: Expr, op: BinaryOp, a: Expr, b: Expr, target: u64, env: Env)
    requires e == Binary(op, a, b) && Eval(e, env).None?
    ensures Extends(env, Solve(e, target, env).env)
    ensures Solve(e, target, env).ok ==> Eval(e, Solve(e, target, env).env) == Some(target)
    decreases e, 0
  {
    var va, vb := Eval(a, env), Eval(b, env);
    if va.Some? && (op.WrapSub? ==> vb.None?) {
      var t := RightTarget(op, target, va.value);
      if t.Some? {
        SolveSound(b, t.value, env);
        EvalMonotone(a, env, Solve(b, t.value, env).env);
        RightTargetSound(op, target, va.value);
      }
    } else if vb.Some? {
      var t := LeftTarget(op, target, vb.value);
      if t.Some? {
        SolveSound(a, t.value, env);
        EvalMonotone(b, env, Solve(a, t.value, env).env);
        LeftTargetSound(op, target, vb.value);
      }
    }
  }

  lemma {:induction false} SolveBytesExtends(bytes: seq<Expr>, target: u64, env: Env)
    ensures Extends(env, SolveBytes(bytes, target, env).env)
    decreases bytes, 0
  {
    if |bytes| > 0 {
      SolveSound(bytes[0], target % 256, env);
      SolveBytesExtends(bytes[1..], target / 256, Solve(bytes[0], target % 256, env).env);
    }
  }

  /** A value once defined survives any later steering, successful or not. */
  lemma SolveKeeps(e: Expr, v: u64, later: Expr, target: u64, env: Env)
    requires Eval(e, env) == Some(v)
    ensures Eval(e, Solve(later, target, env).env) == Some(v)
  {
    SolveSound(later, target, env);
    EvalMonotone(e, env, Solve(later, target, env).env);
  }

  // ----- canonical addresses -----

  function ConstOf(e: Expr): Option<i64> {
    match e
    case Const(k) => Some(k)
    case ToU64(inner) => ConstOf(inner)
    case _ => None
  }

  /** What a constant operand lets a sum or difference be reduced to: the operand that remains
      and the displacement that moves out. */
  datatype Peeled = Peeled(rest: Expr, shift: int)

  function Peel(e: Expr): (p: Option<Peeled>)
    ensures p.Some? ==> e.Binary? && (p.value.rest == e.x || p.value.rest == e.y)
  {
    if !e.Binary? then None
    else
      var cx, cy := ConstOf(e.x), ConstOf(e.y);
      match e.bop
      case WrapSub => if cy.Some? then Some(Peeled(e.x, 0 - cy.value)) else None
      case CleanSub => None
      case WrapMul => None
      case _ =>
        if cy.Some? then Some(Peeled(e.x, cy.value))
        else if cx.Some? then Some(Peeled(e.y, cx.value))
        else None
  }

  /** The root of a canonical address: an absolute address, a variable, or an address
      expression kept whole. */
  datatype Root = Absolute | VarRoot(name: Name) | OpaqueRoot(e: Expr)

  datatype Canon = Canon(root: Root, disp: i64)

  function CanonGo(e: Expr, acc: i64): Option<Canon> {
    match e
    case InitReg(n) => Some(Canon(VarRoot(n), acc))
    case InitMem(n) => Some(Canon(VarRoot(n), acc))
    case Const(k) => Some(Canon(Absolute, WrapI(acc + k)))
    case ToU64(inner) => CanonGo(inner, acc)
    case Binary(_, _, _) =>
      var p := Peel(e);
      if p.None? then None else CanonGo(p.value.rest, WrapI(acc + p.value.shift))
    case _ => None
  }

  function CanonAddr(base: Expr, off: i64): Canon {
    match CanonGo(base, off)
    case Some(c) => c
    case None => Canon(OpaqueRoot(base), off)
  }

  function RootValue(root: Root, env: Assignment): u64 {
    match root
    case Absolute => 0
    case VarRoot(n) => env(n)
    case OpaqueRoot(e) => Mean(e, env)
  }

  lemma {:induction false} ConstSound(e: Expr, env: Assignment)
    requires ConstOf(e).Some?
    ensures Cong(Mean(e, env), ConstOf(e).value)
  {
    match e
    case Const(k) => WrapIsCong(k);
    case ToU64(inner) => ConstSound(inner, env);
  }

  lemma PeelSound(e: Expr, env: Assignment)
    requires Peel(e).Some?
    ensures Cong(Mean(e, env), Mean(Peel(e).value.rest, env) + Peel(e).value.shift)
  {
    hide WrapU, WrapI;
    var x: int, y: int := Mean(e.x, env), Mean(e.y, env);
    WrapIsCong(x + y);
    WrapIsCong(x - y);
    if ConstOf(e.y).Some? {
      ConstSound(e.y, env);
      CongAdd(x, x, y, ConstOf(e.y).value);
    } else {
      ConstSound(e.x, env);
      CongAdd(x, ConstOf(e.x).value, y, y);
    }
  }

  /** Folding a shift into the accumulated displacement changes nothing modulo 2^64. */
  lemma FoldStep(v: int, rest: int, shift: int, acc: int, target: int)
    requires Cong(v, rest + shift) && Cong(rest + WrapI(acc + shift), target)
    ensures Cong(v + acc, target)
  {
    hide WrapU, WrapI;
    WrapIsCong(acc + shift);
    CongAdd(rest, rest, WrapI(acc + shift), acc + shift);
    CongAdd(v, rest + shift, acc, acc);
  }

  lemma ConstFold(k: int, acc: int)
    ensures Cong(WrapU(k) + acc, WrapI(acc + k))
  {
    hide WrapU, WrapI;
    WrapIsCong(k);
    WrapIsCong(acc + k);
    CongAdd(WrapU(k), k, acc, acc);
  }

  lemma {:induction false} CanonGoSound(e: Expr, acc: i64, env: Assignment)
    requires CanonGo(e, acc).Some?
    ensures var c := CanonGo(e, acc).value;
            Cong(Mean(e, env) + acc, RootValue(c.root, env) + c.disp)
  {
    hide WrapU, WrapI, Peel;
    match e
    case InitReg(_) =>
    case InitMem(_) =>
    case Const(k) => ConstFold(k, acc);
    case ToU64(inner) => CanonGoSound(inner, acc, env);
    case Binary(_, _, _) =>
      var p := Peel(e).value;
      var c := CanonGo(e, acc).value;
      PeelSound(e, env);
      CanonGoSound(p.rest, WrapI(acc + p.shift), env);
      FoldStep(Mean(e, env), Mean(p.rest, env), p.shift, acc, RootValue(c.root, env) + c.disp);
  }

  /** An address and its canonical form are the same word under every assignment. */
  lemma CanonSound(base: Expr, off: i64, env: Assignment)
    ensures var c := CanonAddr(base, off);
            Cong(Mean(base, env) + off, RootValue(c.root, env) + c.disp)
  {
    hide Mean, CanonGo;
    if CanonGo(base, off).Some? {
      CanonGoSound(base, off, env);
    }
  }

  /** Canonicalisation is a congruence: on one root two addresses differ by exactly the
      difference of their displacements, so equal canonical forms are the same address. */
  lemma CanonCongruence(base: Expr, off: i64, base': Expr, off': i64, env: Assignment)
    requires CanonAddr(base, off).root == CanonAddr(base', off').root
    ensures Cong((Mean(base, env) + off) - (Mean(base', env) + off'),
                 CanonAddr(base, off).disp - CanonAddr(base', off').disp)
  {
    hide WrapU, WrapI, Mean, CanonAddr;
    CanonSound(base, off, env);
    CanonSound(base', off', env);
    var c, c' := CanonAddr(base, off), CanonAddr(base', off');
    var rv: int := RootValue(c.root, env);
    var a: int, a': int := Mean(base, env) + off, Mean(base', env) + off';
    CongAdd(a, rv + c.disp, a', rv + c'.disp);
  }

  // ----- the root as an expression, for the witness builder -----

  /** `root` is `None` for an absolute address. */
  datatype RootExpr = RootExpr(root: Option<Expr>, disp: i64)

  function CanonRootExpr(e: Expr, acc: i64): RootExpr {
    match e
    case Const(k) => RootExpr(None, WrapI(acc + k))
    case ToU64(inner) => CanonRootExpr(inner, acc)
    case Binary(_, _, _) =>
      var p := Peel(e);
      if p.None? then RootExpr(Some(e), acc)
      else CanonRootExpr(p.value.rest, WrapI(acc + p.value.shift))
    case _ => RootExpr(Some(e), acc)
  }

  /** The value of a root; an absolute address has root value 0. */
  function RootExprValue(root: Option<Expr>, env: Assignment): u64 {
    if root.None? then 0 else Mean(root.value, env)
  }

  /** The witness builder's root determines the address of every expression it is the root of. */
  lemma {:induction false} CanonRootExprSound(e: Expr, acc: i64, env: Assignment)
    ensures var r := CanonRootExpr(e, acc);
            Cong(Mean(e, env) + acc, RootExprValue(r.root, env) + r.disp)
  {
    hide WrapU, WrapI, Peel;
    match e
    case Const(k) => ConstFold(k, acc);
    case ToU64(inner) => CanonRootExprSound(inner, acc, env);
    case Binary(_, _, _) =>
      if Peel(e).Some? {
        var p := Peel(e).value;
        var r := CanonRootExpr(e, acc);
        PeelSound(e, env);
        CanonRootExprSound(p.rest, WrapI(acc + p.shift), env);
        FoldStep(Mean(e, env), Mean(p.rest, env), p.shift, acc, RootExprValue(r.root, env) + r.disp);
      }
    case _ =>
  }
}
