/** What reaches `r0` on the edges into the program exit. */
module Outcomes {
  import opened Words
  import opened Cfg

  /** A decoded instruction, as far as its effect on `r0` goes. */
  datatype Insn = Insn(opc: nat, dst: nat, imm: i64)

  datatype Image = Image(flow: seq<Flow>, insns: seq<Insn>)

  ghost predicate ValidImage(image: Image) {
    |image.insns| == |image.flow|
  }

  const LD_DW_IMM: nat := 0x18
  const MOV64_IMM: nat := 0xb7
  const MOV32_IMM: nat := 0xb4

  /** The LD, LDX, ALU32 and ALU64 classes are those that write `dst`. */
  predicate WritesDst(opc: nat) {
    opc % 8 == 0 || opc % 8 == 1 || opc % 8 == 4 || opc % 8 == 7
  }

  datatype R0Def = Zero | NonZero(v: u64) | CallResult(pc: nat) | SyscallResult(hash: nat) | Computed

  /** The definition of `r0` made at `pc`, if any. */
  function R0Write(image: Image, pc: nat): Option<R0Def>
    requires pc < |image.flow| && |image.insns| == |image.flow|
  {
    match image.flow[pc]
    case Call(t) => Some(CallResult(t))
    case Syscall(hash, _) => Some(SyscallResult(hash))
    case CallReg => Some(Computed)
    case Unresolved => Some(Computed)
    case _ =>
      var i := image.insns[pc];
      if !WritesDst(i.opc) || i.dst != 0 then None
      else if i.opc == MOV64_IMM || i.opc == LD_DW_IMM then
        Some(if WrapU(i.imm) == 0 then Zero else NonZero(WrapU(i.imm)))
      else if i.opc == MOV32_IMM then
        Some(if WrapU(i.imm) == 0 then Zero else NonZero(WrapU(i.imm) % TWO32))
      else Some(Computed)
  }

  /** The machine's own rule: what an instruction that is not a call may leave in `r0`. */
  ghost predicate R0Effect(i: Insn, before: u64, after: u64) {
    if WritesDst(i.opc) && i.dst == 0 then
      (i.opc == MOV64_IMM || i.opc == LD_DW_IMM ==> after == WrapU(i.imm))
      && (i.opc == MOV32_IMM ==> after == WrapU(i.imm) % TWO32)
    else after == before
  }

  /** The value agrees with the definition that produced it. */
  ghost predicate DefAllows(d: R0Def, v: u64) {
    match d
    case Zero => v == 0
    case NonZero(x) => v == x
    case _ => true
  }

  /** What a whole instruction, including a completed call, may leave in `r0`. */
  ghost predicate R0Step(image: Image, pc: nat, before: u64, after: u64)
    requires ValidImage(image) && pc < |image.flow|
  {
    match image.flow[pc]
    case Call(_) => true
    case Syscall(_, _) => true
    case CallReg => true
    case Unresolved => true
    case _ => R0Effect(image.insns[pc], before, after)
  }

  lemma R0WriteSound(image: Image, pc: nat, before: u64, after: u64)
    requires ValidImage(image) && pc < |image.flow| && R0Step(image, pc, before, after)
    ensures match R0Write(image, pc)
            case None => after == before
            case Some(d) => DefAllows(d, after)
  {
  }

  /** No step of the instruction changes `r0`. */
  ghost predicate KeepsR0(image: Image, pc: nat)
    requires ValidImage(image) && pc < |image.flow|
  {
    forall before: u64, after: u64 :: R0Step(image, pc, before, after) ==> after == before
  }

  /** Every step of the instruction leaves 0 in `r0`. */
  ghost predicate ForcesZero(image: Image, pc: nat)
    requires ValidImage(image) && pc < |image.flow|
  {
    forall before: u64, after: u64 :: R0Step(image, pc, before, after) ==> after == 0
  }

  /** The value can be left by the instruction. */
  ghost predicate CanLeave(image: Image, pc: nat, v: u64)
    requires ValidImage(image) && pc < |image.flow|
  {
    exists before: u64 :: R0Step(image, pc, before, v)
  }

  /** The definition table is exact: no definition is listed exactly for the instructions that keep
      `r0`, and a listed definition allows exactly the values the instruction can leave. */
  lemma R0WriteExact(image: Image, pc: nat)
    requires ValidImage(image) && pc < |image.flow|
    ensures R0Write(image, pc).None? <==> KeepsR0(image, pc)
    ensures R0Write(image, pc).Some? ==>
              forall v: u64 :: DefAllows(R0Write(image, pc).value, v) <==> CanLeave(image, pc, v)
  {
    var d := R0Write(image, pc);
    if d.Some? {
      forall v: u64
        ensures DefAllows(d.value, v) <==> CanLeave(image, pc, v)
      {
        if DefAllows(d.value, v) {
          assert R0Step(image, pc, 0, v);
        }
      }
      var v: u64 := if d.value.NonZero? then d.value.v else 0;
      var other: u64 := if v == 0 then 1 else 0;
      assert R0Step(image, pc, other, v);
    }
  }

  /** The immediate of a 32-bit move is 32 bits wide, as decoded. */
  ghost predicate NarrowImmediates(image: Image) {
    forall i :: 0 <= i < |image.insns| && image.insns[i].opc == MOV32_IMM ==>
                  -0x8000_0000 <= image.insns[i].imm < 0x8000_0000
  }

  /** `Zero` is listed exactly for the instructions that always leave 0. */
  lemma ZeroIff(image: Image, pc: nat)
    requires ValidImage(image) && pc < |image.flow| && NarrowImmediates(image)
    ensures R0Write(image, pc) == Some(Zero) <==> ForcesZero(image, pc)
  {
    R0WriteExact(image, pc);
    var d := R0Write(image, pc);
    if d == Some(Zero) {
      forall before: u64, after: u64 | R0Step(image, pc, before, after)
        ensures after == 0
      {
        R0WriteSound(image, pc, before, after);
      }
    } else {
      var v: u64 := if d.Some? && d.value.NonZero? then d.value.v else 1;
      assert v != 0 && R0Step(image, pc, v, v);
    }
  }

  // ----- edges into the exit -----

  datatype ExitEdge = ExitEdge(from: nat, r0: set<R0Def>)

  predicate IsSuccess(e: ExitEdge) {
    e.r0 != {} && forall d :: d in e.r0 ==> d.Zero?
  }

  type Preds = map<nat, seq<nat>>

  function PredsOf(preds: Preds, pc: nat): seq<nat> {
    if pc in preds then preds[pc] else []
  }

  /** `preds` lists exactly the edges that leave the body. */
  ghost predicate PredsRight(preds: Preds, flow: seq<Flow>, noreturn: set<nat>, body: set<nat>) {
    forall p: nat, q: nat :: p in PredsOf(preds, q) <==> p in body && Edge(flow, noreturn, p, q)
  }

  ghost predicate InBody(flow: seq<Flow>, body: set<nat>) {
    forall p: nat :: p in body ==> p < |flow|
  }

  function AddPred(preds: Preds, q: nat, p: nat): (r: Preds)
    ensures forall x: nat :: PredsOf(r, x) == if x == q then PredsOf(preds, q) + [p] else PredsOf(preds, x)
  {
    preds[q := PredsOf(preds, q) + [p]]
  }

  /** The edges of body instructions below `pc`, and those of `pc` itself into `targets`. */
  ghost predicate PredsUpTo(
    preds: Preds, flow: seq<Flow>, noreturn: set<nat>, body: set<nat>, pc: nat, targets: seq<nat>)
  {
    forall p: nat, q: nat :: p in PredsOf(preds, q) <==>
      (p in body && p < pc && Edge(flow, noreturn, p, q)) || (p == pc && q in targets)
  }

  lemma OnePredMore(preds: Preds, flow: seq<Flow>, noreturn: set<nat>, body: set<nat>, pc: nat, targets: seq<nat>, t: nat)
    requires PredsUpTo(preds, flow, noreturn, body, pc, targets)
    ensures PredsUpTo(AddPred(preds, t, pc), flow, noreturn, body, pc, targets + [t])
  {
    hide AddPred, Edge, PredsOf;
    var preds' := AddPred(preds, t, pc);
    forall p: nat, q: nat
      ensures p in PredsOf(preds', q) <==>
              (p in body && p < pc && Edge(flow, noreturn, p, q)) || (p == pc && q in targets + [t])
    {
      assert p in PredsOf(preds, q) <==> (p in body && p < pc && Edge(flow, noreturn, p, q)) || (p == pc && q in targets);
      if q == t {
        assert PredsOf(preds', q) == PredsOf(preds, q) + [pc];
      } else {
        assert PredsOf(preds', q) == PredsOf(preds, q);
      }
    }
  }

  lemma NextPreds(preds: Preds, flow: seq<Flow>, noreturn: set<nat>, body: set<nat>, pc: nat)
    requires pc < |flow|
    requires PredsUpTo(preds, flow, noreturn, body, pc, if pc in body then Successors(flow, noreturn, pc) else [])
    ensures PredsUpTo(preds, flow, noreturn, body, pc + 1, [])
  {
    hide Successors, PredsOf;
    var succ := if pc in body then Successors(flow, noreturn, pc) else [];
    forall p: nat, q: nat
      ensures p in PredsOf(preds, q) <==> (p in body && p < pc + 1 && Edge(flow, noreturn, p, q)) || (p == pc + 1 && q in [])
    {
      assert p in PredsOf(preds, q) <==> (p in body && p < pc && Edge(flow, noreturn, p, q)) || (p == pc && q in succ);
    }
  }

  method BuildPreds(flow: seq<Flow>, noreturn: set<nat>, body: set<nat>) returns (preds: Preds)
    requires InBody(flow, body)
    ensures PredsRight(preds, flow, noreturn, body)
  {
    hide Successors, AddPred, PredsUpTo;
    preds := map[];
    var pc := 0;
    NoPreds(preds, flow, noreturn, body, pc);
    while pc < |flow|
      invariant pc <= |flow| && PredsUpTo(preds, flow, noreturn, body, pc, [])
    {
      if pc in body {
        var succ := Successors(flow, noreturn, pc);
        var i := 0;
        assert succ[..0] == [];
        while i < |succ|
          invariant i <= |succ| && PredsUpTo(preds, flow, noreturn, body, pc, succ[..i])
        {
          OnePredMore(preds, flow, noreturn, body, pc, succ[..i], succ[i]);
          preds := AddPred(preds, succ[i], pc);
          assert succ[..i + 1] == succ[..i] + [succ[i]];
          i := i + 1;
        }
        assert succ[..i] == succ;
      }
      NextPreds(preds, flow, noreturn, body, pc);
      pc := pc + 1;
    }
    AllPreds(preds, flow, noreturn, body);
  }

  lemma NoPreds(preds: Preds, flow: seq<Flow>, noreturn: set<nat>, body: set<nat>, pc: nat)
    requires preds == map[] && pc == 0
    ensures PredsUpTo(preds, flow, noreturn, body, pc, [])
  {
    assert forall q: nat :: PredsOf(preds, q) == [];
    hide Edge, PredsOf;
    forall p: nat, q: nat
      ensures p in PredsOf(preds, q) <==> (p in body && p < pc && Edge(flow, noreturn, p, q)) || (p == pc && q in [])
    {
      assert PredsOf(preds, q) == [];
    }
  }

  lemma AllPreds(preds: Preds, flow: seq<Flow>, noreturn: set<nat>, body: set<nat>)
    requires InBody(flow, body) && PredsUpTo(preds, flow, noreturn, body, |flow|, [])
    ensures PredsRight(preds, flow, noreturn, body)
  {
    hide Edge, PredsOf;
    forall p: nat, q: nat
      ensures p in PredsOf(preds, q) <==> p in body && Edge(flow, noreturn, p, q)
    {
      assert p in PredsOf(preds, q) <==> (p in body && p < |flow| && Edge(flow, noreturn, p, q)) || (p == |flow| && q in []);
    }
  }

  /** A backward trail: from a definition `w[0]` through instructions that leave `r0` alone to
      `at`, all inside the body. */
  ghost predicate Trail(image: Image, noreturn: set<nat>, body: set<nat>, w: seq<nat>, at: nat)
    requires ValidImage(image)
  {
    |w| >= 2 && Walk(image.flow, noreturn, w) && Last(w) == at && at < |image.flow|
    && (forall i :: 0 <= i < |w| - 1 ==> w[i] in body)
    && (forall i :: 1 <= i < |w| - 1 ==> w[i] < |image.flow| && R0Write(image, w[i]).None?)
    && w[0] < |image.flow| && R0Write(image, w[0]).Some?
  }

  ghost predicate DefReaches(image: Image, noreturn: set<nat>, body: set<nat>, d: R0Def, at: nat)
    requires ValidImage(image)
  {
    exists w :: Trail(image, noreturn, body, w, at) && R0Write(image, w[0]) == Some(d)
  }

  /** A walk to `at` through instructions of the body that leave `r0` alone. */
  ghost predicate Quiet(image: Image, noreturn: set<nat>, body: set<nat>, w: seq<nat>, at: nat)
    requires ValidImage(image)
  {
    Walk(image.flow, noreturn, w) && Last(w) == at && at < |image.flow|
    && (forall i :: 0 <= i < |w| - 1 ==>
          w[i] in body && w[i] < |image.flow| && R0Write(image, w[i]).None?)
  }

  ghost predicate QuietTo(image: Image, noreturn: set<nat>, body: set<nat>, x: nat, at: nat)
    requires ValidImage(image)
  {
    exists w :: Quiet(image, noreturn, body, w, at) && w[0] == x
  }

  lemma ConsWalk(flow: seq<Flow>, noreturn: set<nat>, p: nat, w: seq<nat>)
    requires Walk(flow, noreturn, w) && Edge(flow, noreturn, p, w[0])
    ensures Walk(flow, noreturn, [p] + w)
  {
    var w' := [p] + w;
    forall i | 0 <= i < |w'| - 1
      ensures Edge(flow, noreturn, w'[i], w'[i + 1])
    {
      if i > 0 {
        assert Edge(flow, noreturn, w[i - 1], w[i]);
      }
    }
  }

  lemma QuietStart(image: Image, noreturn: set<nat>, body: set<nat>, at: nat)
    requires ValidImage(image) && at < |image.flow|
    ensures QuietTo(image, noreturn, body, at, at)
  {
    assert Quiet(image, noreturn, body, [at], at);
  }

  lemma QuietCons(image: Image, noreturn: set<nat>, body: set<nat>, p: nat, x: nat, at: nat)
    requires ValidImage(image) && QuietTo(image, noreturn, body, x, at)
    requires p in body && Edge(image.flow, noreturn, p, x)
    ensures R0Write(image, p).None? ==> QuietTo(image, noreturn, body, p, at)
    ensures R0Write(image, p).Some? ==> DefReaches(image, noreturn, body, R0Write(image, p).value, at)
  {
    hide R0Write, Edge;
    var w :| Quiet(image, noreturn, body, w, at) && w[0] == x;
    assert p < |image.flow| by { EdgeInside(image.flow, noreturn, p, x); }
    ConsWalk(image.flow, noreturn, p, w);
    var w' := [p] + w;
    if R0Write(image, p).None? {
      assert Quiet(image, noreturn, body, w', at);
    } else {
      assert Trail(image, noreturn, body, w', at);
    }
  }

  lemma EdgeInside(flow: seq<Flow>, noreturn: set<nat>, p: nat, q: nat)
    requires Edge(flow, noreturn, p, q)
    ensures p < |flow|
  {
  }

  /** All predecessors of the instruction have been seen. */
  ghost predicate Expanded(preds: Preds, seen: set<nat>, x: nat) {
    forall p: nat :: p in PredsOf(preds, x) ==> p in seen
  }

  ghost predicate Collected(image: Image, seen: set<nat>, out: set<R0Def>)
    requires ValidImage(image)
  {
    forall p: nat :: p in seen ==> p < |image.flow| && (R0Write(image, p).Some? ==> R0Write(image, p).value in out)
  }

  predicate Open(image: Image, seen: set<nat>, x: nat, pc: nat)
    requires |image.insns| == |image.flow|
  {
    x == pc || (x in seen && x < |image.flow| && R0Write(image, x).None?)
  }

  /** A backward search from `pc` to the nearest definitions of `r0`. */
  method R0Defs(image: Image, ghost noreturn: set<nat>, ghost body: set<nat>, preds: Preds, pc: nat)
    returns (out: set<R0Def>)
    requires ValidImage(image) && pc < |image.flow| && InBody(image.flow, body)
    requires PredsRight(preds, image.flow, noreturn, body)
    ensures forall d :: d in out <==> DefReaches(image, noreturn, body, d, pc)
  {
    hide R0Write, Edge, QuietTo, DefReaches, PredsOf;
    out := {};
    var seen: set<nat> := {};
    var stack: seq<nat> := [pc];
    QuietStart(image, noreturn, body, pc);
    while |stack| > 0
      invariant seen <= body && Collected(image, seen, out)
      invariant forall d :: d in out ==> DefReaches(image, noreturn, body, d, pc)
      invariant forall i :: 0 <= i < |stack| ==> QuietTo(image, noreturn, body, stack[i], pc)
      invariant forall x: nat :: Open(image, seen, x, pc) ==> x in stack || Expanded(preds, seen, x)
      decreases |body| - |seen|, |stack|
    {
      var at := stack[|stack| - 1];
      ghost var popped := stack;
      stack := stack[..|stack| - 1];
      assert popped == stack + [at];
      var ps := PredsOf(preds, at);
      ghost var size := |stack|;
      ghost var was := seen;
      var i := 0;
      while i < |ps|
        invariant i <= |ps| && was <= seen <= body && Collected(image, seen, out)
        invariant forall j :: 0 <= j < i ==> ps[j] in seen
        invariant forall d :: d in out ==> DefReaches(image, noreturn, body, d, pc)
        invariant forall j :: 0 <= j < |stack| ==> QuietTo(image, noreturn, body, stack[j], pc)
        invariant forall x: nat :: Open(image, seen, x, pc) ==> x == at || x in stack || Expanded(preds, seen, x)
        invariant seen == was ==> |stack| == size
      {
        var p := ps[i];
        assert p in PredsOf(preds, at);
        if p !in seen {
          QuietCons(image, noreturn, body, p, at, pc);
          seen := seen + {p};
          var d := R0Write(image, p);
          if d.Some? {
            out := out + {d.value};
          } else {
            stack := stack + [p];
          }
        }
        i := i + 1;
      }
      if seen != was {
        StrictSubsetSize(was, seen);
      }
      SubsetSize(seen, body);
    }
    forall d | DefReaches(image, noreturn, body, d, pc)
      ensures d in out
    {
      DefIsCollected(image, noreturn, body, preds, seen, out, pc, d);
    }
  }

  lemma DefIsCollected(image: Image, noreturn: set<nat>, body: set<nat>, preds: Preds, seen: set<nat>, out: set<R0Def>, pc: nat, d: R0Def)
    requires ValidImage(image) && PredsRight(preds, image.flow, noreturn, body)
    requires Collected(image, seen, out) && DefReaches(image, noreturn, body, d, pc)
    requires forall x: nat :: Open(image, seen, x, pc) ==> Expanded(preds, seen, x)
    ensures d in out
  {
    hide R0Write, Edge, PredsOf;
    var w :| Trail(image, noreturn, body, w, pc) && R0Write(image, w[0]) == Some(d);
    var i := |w| - 1;
    while i > 0
      invariant 0 <= i < |w| && (i < |w| - 1 ==> w[i] in seen)
      decreases i
    {
      assert Open(image, seen, w[i], pc);
      assert Edge(image.flow, noreturn, w[i - 1], w[i]);
      assert w[i - 1] in PredsOf(preds, w[i]);
      i := i - 1;
    }
  }

  // ----- outcomes -----

  /** What may be the last definition of `r0` when the program leaves through `from`. */
  ghost predicate EdgeDef(image: Image, noreturn: set<nat>, body: set<nat>, d: R0Def, from: nat)
    requires ValidImage(image) && from < |image.flow|
  {
    if R0Write(image, from).Some? then d == R0Write(image, from).value
    else DefReaches(image, noreturn, body, d, from)
  }

  /** Some exit of the body is a successor. */
  ghost predicate IntoExit(flow: seq<Flow>, noreturn: set<nat>, body: set<nat>, p: nat) {
    exists x: nat :: x in body && x < |flow| && flow[x].Exit? && Edge(flow, noreturn, p, x)
  }

  /** The edge leads into an exit of the body, with exactly the definitions that reach it. */
  ghost predicate EdgeRight(image: Image, noreturn: set<nat>, body: set<nat>, e: ExitEdge)
    requires ValidImage(image)
  {
    e.from in body && e.from < |image.flow| && IntoExit(image.flow, noreturn, body, e.from)
    && forall d :: d in e.r0 <==> EdgeDef(image, noreturn, body, d, e.from)
  }

  predicate ListsEdge(edges: seq<ExitEdge>, p: nat) {
    exists i | 0 <= i < |edges| :: edges[i].from == p
  }

  /** Every edge from the body into one of the body's exits is listed, with its definitions. */
  ghost predicate EdgesRight(image: Image, noreturn: set<nat>, body: set<nat>, edges: seq<ExitEdge>)
    requires ValidImage(image)
  {
    (forall i :: 0 <= i < |edges| ==> EdgeRight(image, noreturn, body, edges[i]))
    && forall p: nat, x: nat ::
         x in body && x < |image.flow| && image.flow[x].Exit? && p in body && Edge(image.flow, noreturn, p, x)
         ==> ListsEdge(edges, p)
  }

  method EdgeInto(image: Image, ghost noreturn: set<nat>, ghost body: set<nat>, preds: Preds, from: nat)
    returns (e: ExitEdge)
    requires ValidImage(image) && InBody(image.flow, body) && from in body && IntoExit(image.flow, noreturn, body, from)
    requires PredsRight(preds, image.flow, noreturn, body)
    ensures e.from == from && EdgeRight(image, noreturn, body, e)
  {
    hide DefReaches, PredsRight, IntoExit;
    var d := R0Write(image, from);
    if d.Some? {
      e := ExitEdge(from, {d.value});
    } else {
      var defs := R0Defs(image, noreturn, body, preds, from);
      e := ExitEdge(from, defs);
    }
  }

  method ExitEdges(image: Image, noreturn: set<nat>, body: set<nat>) returns (edges: seq<ExitEdge>)
    requires ValidImage(image) && InBody(image.flow, body)
    ensures EdgesRight(image, noreturn, body, edges)
  {
    hide EdgeRight, Edge, ListsEdge;
    var preds := BuildPreds(image.flow, noreturn, body);
    edges := [];
    var x := 0;
    while x < |image.flow|
      invariant x <= |image.flow|
      invariant forall i :: 0 <= i < |edges| ==> EdgeRight(image, noreturn, body, edges[i])
      invariant forall p: nat, y: nat ::
                  y < x && y in body && image.flow[y].Exit? && p in PredsOf(preds, y)
                  ==> ListsEdge(edges, p)
    {
      if x in body && image.flow[x].Exit? {
        var ps := PredsOf(preds, x);
        var j := 0;
        while j < |ps|
          invariant j <= |ps|
          invariant forall i :: 0 <= i < |edges| ==> EdgeRight(image, noreturn, body, edges[i])
          invariant forall p: nat, y: nat ::
                      y < x && y in body && image.flow[y].Exit? && p in PredsOf(preds, y)
                      ==> ListsEdge(edges, p)
          invariant forall k :: 0 <= k < j ==> ListsEdge(edges, ps[k])
        {
          assert ps[j] in PredsOf(preds, x);
          assert Edge(image.flow, noreturn, ps[j], x);
          var e := EdgeInto(image, noreturn, body, preds, ps[j]);
          ListedGrows(edges, e);
          edges := edges + [e];
          j := j + 1;
        }
      }
      x := x + 1;
    }
  }

  lemma ListedGrows(edges: seq<ExitEdge>, e: ExitEdge)
    ensures forall p: nat :: ListsEdge(edges, p) ==> ListsEdge(edges + [e], p)
    ensures ListsEdge(edges + [e], e.from)
  {
    var r := edges + [e];
    forall p: nat | ListsEdge(edges, p)
      ensures ListsEdge(r, p)
    {
      var i :| 0 <= i < |edges| && edges[i].from == p;
      assert r[i].from == p;
    }
    assert r[|edges|].from == e.from;
  }

  function SuccessEdges(edges: seq<ExitEdge>): set<nat> {
    set i | 0 <= i < |edges| && IsSuccess(edges[i]) :: edges[i].from
  }

  // ----- the last definition on a path -----

  /** The last definition of `r0` among the instructions executed on `w`, its last program
      counter excluded. */
  ghost function LastDef(image: Image, w: seq<nat>): Option<R0Def>
    requires ValidImage(image)
    requires forall i :: 0 <= i < |w| - 1 ==> w[i] < |image.flow|
  {
    if |w| < 2 then None
    else if R0Write(image, w[|w| - 2]).Some? then R0Write(image, w[|w| - 2])
    else LastDef(image, w[..|w| - 1])
  }

  /** On every path of the function into an exit, the last definition of `r0` is among those
      listed for the path's last edge. */
  lemma LastDefListed(image: Image, noreturn: set<nat>, body: set<nat>, w: seq<nat>)
    requires ValidImage(image) && |w| >= 2 && Walk(image.flow, noreturn, w)
    requires forall i :: 0 <= i < |w| - 1 ==> w[i] < |image.flow| && w[i] in body
    requires LastDef(image, w).Some?
    ensures EdgeDef(image, noreturn, body, LastDef(image, w).value, w[|w| - 2])
  {
    hide R0Write, Edge;
    var from := w[|w| - 2];
    if R0Write(image, from).None? {
      var i := DefIndex(image, w);
      var t := w[i..|w| - 1];
      forall k | 0 <= k < |t| - 1
        ensures Edge(image.flow, noreturn, t[k], t[k + 1])
      {
        assert Edge(image.flow, noreturn, w[i + k], w[i + k + 1]);
      }
      assert Trail(image, noreturn, body, t, from);
    }
  }

  lemma {:induction false} DefIndex(image: Image, w: seq<nat>) returns (i: nat)
    requires ValidImage(image)
    requires forall i :: 0 <= i < |w| - 1 ==> w[i] < |image.flow|
    requires LastDef(image, w).Some?
    ensures i < |w| - 1 && R0Write(image, w[i]) == LastDef(image, w)
    ensures forall j :: i < j < |w| - 1 ==> R0Write(image, w[j]).None?
  {
    if R0Write(image, w[|w| - 2]).Some? {
      i := |w| - 2;
    } else {
      i := DefIndex(image, w[..|w| - 1]);
    }
  }

  // ----- what a success edge means -----

  /** A walk of the body from an instruction that can change `r0` through others that keep it. */
  ghost predicate Carries(image: Image, noreturn: set<nat>, body: set<nat>, w: seq<nat>, from: nat)
    requires ValidImage(image)
  {
    Walk(image.flow, noreturn, w) && Last(w) == from
    && (forall i :: 0 <= i < |w| ==> w[i] < |image.flow|)
    && (forall i :: 0 <= i < |w| - 1 ==> w[i] in body)
    && !KeepsR0(image, w[0]) && forall i :: 1 <= i < |w| ==> KeepsR0(image, w[i])
  }

  /** What `p` leaves in `r0` can still be there when the program leaves through `from`. */
  ghost predicate LeavesThrough(image: Image, noreturn: set<nat>, body: set<nat>, p: nat, from: nat)
    requires ValidImage(image)
  {
    p < |image.flow| && exists w :: Carries(image, noreturn, body, w, from) && w[0] == p
  }

  /** The definitions of an edge are those of the instructions whose value can leave through it. */
  lemma EdgeDefIff(image: Image, noreturn: set<nat>, body: set<nat>, d: R0Def, from: nat)
    requires ValidImage(image) && from < |image.flow|
    ensures EdgeDef(image, noreturn, body, d, from)
            <==> exists p: nat :: LeavesThrough(image, noreturn, body, p, from) && R0Write(image, p) == Some(d)
  {
    hide R0Write, Edge, KeepsR0, R0Step;
    R0WriteExact(image, from);
    if EdgeDef(image, noreturn, body, d, from) {
      if R0Write(image, from).Some? {
        assert Carries(image, noreturn, body, [from], from);
        assert LeavesThrough(image, noreturn, body, from, from);
      } else {
        var w :| Trail(image, noreturn, body, w, from) && R0Write(image, w[0]) == Some(d);
        TrailCarries(image, noreturn, body, w, from);
        assert LeavesThrough(image, noreturn, body, w[0], from);
      }
    }
    if exists p: nat :: LeavesThrough(image, noreturn, body, p, from) && R0Write(image, p) == Some(d) {
      var p: nat :| LeavesThrough(image, noreturn, body, p, from) && R0Write(image, p) == Some(d);
      var w :| Carries(image, noreturn, body, w, from) && w[0] == p;
      CarriesTrail(image, noreturn, body, w, from);
    }
  }

  lemma TrailCarries(image: Image, noreturn: set<nat>, body: set<nat>, w: seq<nat>, from: nat)
    requires ValidImage(image) && Trail(image, noreturn, body, w, from) && R0Write(image, from).None?
    ensures Carries(image, noreturn, body, w, from)
  {
    hide R0Write, Edge, KeepsR0, R0Step;
    R0WriteExact(image, w[0]);
    forall i | 1 <= i < |w|
      ensures w[i] < |image.flow| && KeepsR0(image, w[i])
    {
      R0WriteExact(image, w[i]);
    }
  }

  lemma CarriesTrail(image: Image, noreturn: set<nat>, body: set<nat>, w: seq<nat>, from: nat)
    requires ValidImage(image) && from < |image.flow| && Carries(image, noreturn, body, w, from)
    ensures R0Write(image, w[0]).Some? && EdgeDef(image, noreturn, body, R0Write(image, w[0]).value, from)
  {
    hide R0Write, Edge, KeepsR0, R0Step;
    R0WriteExact(image, w[0]);
    if |w| >= 2 {
      forall i | 1 <= i < |w|
        ensures R0Write(image, w[i]).None?
      {
        R0WriteExact(image, w[i]);
      }
      assert Trail(image, noreturn, body, w, from);
    }
  }

  /** An edge is a success edge if and only if some instruction's value can leave through it and
      every such instruction always leaves 0. */
  lemma SuccessIff(image: Image, noreturn: set<nat>, body: set<nat>, e: ExitEdge)
    requires ValidImage(image) && NarrowImmediates(image) && EdgeRight(image, noreturn, body, e)
    ensures IsSuccess(e)
            <==> (exists p: nat :: LeavesThrough(image, noreturn, body, p, e.from))
                 && forall p: nat :: LeavesThrough(image, noreturn, body, p, e.from) ==> ForcesZero(image, p)
  {
    hide R0Write, Edge, KeepsR0, R0Step, Carries, ForcesZero, EdgeDef;
    forall p: nat | LeavesThrough(image, noreturn, body, p, e.from)
      ensures R0Write(image, p).Some? && R0Write(image, p).value in e.r0
      ensures R0Write(image, p).value.Zero? <==> ForcesZero(image, p)
    {
      LeaverDefines(image, noreturn, body, p, e.from);
      EdgeDefIff(image, noreturn, body, R0Write(image, p).value, e.from);
      ZeroIff(image, p);
    }
    forall d | d in e.r0
      ensures exists p: nat :: LeavesThrough(image, noreturn, body, p, e.from) && R0Write(image, p) == Some(d)
    {
      EdgeDefIff(image, noreturn, body, d, e.from);
    }
  }

  lemma LeaverDefines(image: Image, noreturn: set<nat>, body: set<nat>, p: nat, from: nat)
    requires ValidImage(image) && from < |image.flow| && LeavesThrough(image, noreturn, body, p, from)
    ensures R0Write(image, p).Some?
  {
    hide R0Write, Edge, KeepsR0, R0Step;
    var w :| Carries(image, noreturn, body, w, from) && w[0] == p;
    CarriesTrail(image, noreturn, body, w, from);
  }
}
