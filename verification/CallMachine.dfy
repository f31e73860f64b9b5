/** Runs of the program with calls and returns. Local calls push a frame, indirect calls push a
    frame at any program counter, `exit` pops. The recovered control flow is proved against these
    runs. */
module CallMachine {
  import opened Words
  import opened Cfg
  import opened Outcomes

  /** An active function: where it was entered and the program counters it has been at, the last
      one current (or, below the top, that of the pending call). */
  datatype Frame = Frame(entry: nat, path: seq<nat>)

  datatype State = State(stack: seq<Frame>, r0: u64)

  function Top(s: State): Frame
    requires |s.stack| > 0
  {
    s.stack[|s.stack| - 1]
  }

  function Goto(f: Frame, pc: nat): Frame {
    f.(path := f.path + [pc])
  }

  /** The top frame moves to `pc`; `r0` changes as the instruction allows. */
  ghost predicate Moves(image: Image, s: State, s': State, pc: nat)
    requires ValidImage(image) && |s.stack| > 0 && |Top(s).path| > 0 && Last(Top(s).path) < |image.flow|
  {
    s'.stack == s.stack[..|s.stack| - 1] + [Goto(Top(s), pc)]
    && R0Step(image, Last(Top(s).path), s.r0, s'.r0)
  }

  ghost predicate Enters(s: State, s': State, target: nat) {
    s'.stack == s.stack + [Frame(target, [target])] && s'.r0 == s.r0
  }

  /** The top frame is popped and its caller resumes after the call. */
  ghost predicate Returns(s: State, s': State) {
    var n := |s.stack|;
    n >= 2 && |s.stack[n - 2].path| > 0
    && s'.stack == s.stack[..n - 2] + [Goto(s.stack[n - 2], Last(s.stack[n - 2].path) + 1)]
    && s'.r0 == s.r0
  }

  ghost predicate Step(image: Image, s: State, s': State)
    requires ValidImage(image)
  {
    |s.stack| > 0 && |Top(s).path| > 0 && Last(Top(s).path) < |image.flow|
    && var pc := Last(Top(s).path);
       match image.flow[pc]
       case Seq => Moves(image, s, s', pc + 1)
       case Jump(t) => Moves(image, s, s', t)
       case Branch(t) => Moves(image, s, s', t) || Moves(image, s, s', pc + 1)
       case Syscall(_, _) => !EndsProgram(image.flow[pc]) && Moves(image, s, s', pc + 1)
       case Call(t) => Enters(s, s', t)
       case CallReg => exists t: nat :: Enters(s, s', t)
       case Exit => Returns(s, s')
       case Unresolved => false
  }

  ghost predicate Run(image: Image, entry: nat, run: seq<State>)
    requires ValidImage(image)
  {
    |run| > 0 && run[0].stack == [Frame(entry, [entry])]
    && forall i :: 0 <= i < |run| - 1 ==> Step(image, run[i], run[i + 1])
  }

  /** The program is at its exit. */
  predicate AtExit(flow: seq<Flow>, s: State) {
    |s.stack| == 1 && |s.stack[0].path| > 0 && Last(s.stack[0].path) < |flow|
    && flow[Last(s.stack[0].path)].Exit?
  }

  // ----- the invariant of the stack -----

  ghost predicate FrameOk(cfg: Cfg, f: Frame) {
    |f.path| > 0 && f.path[0] == f.entry && Walk(cfg.flow, cfg.noreturn, f.path)
  }

  /** A caller waits at its call of the frame above. */
  ghost predicate Calls(flow: seq<Flow>, caller: Frame, callee: Frame) {
    |caller.path| > 0 && Last(caller.path) < |flow|
    && var f := flow[Last(caller.path)];
       f.CallReg? || (f.Call? && f.target == callee.entry)
  }

  ghost predicate StackOk(cfg: Cfg, stack: seq<Frame>) {
    |stack| > 0 && stack[0].entry == cfg.entry
    && (forall i :: 0 <= i < |stack| ==> FrameOk(cfg, stack[i]))
    && (forall i :: 0 <= i < |stack| - 1 ==> Calls(cfg.flow, stack[i], stack[i + 1]))
  }

  /** No function of the set reaches an exit when calls into the set are terminal. */
  ghost predicate NeverExit(cfg: Cfg) {
    forall e: nat :: e in cfg.noreturn ==> !CanExit(cfg.flow, cfg.noreturn, e)
  }

  lemma RecoveredNeverExit(cfg: Cfg)
    requires Recovered(cfg)
    ensures NeverExit(cfg)
  {
    hide CanExit, BodiesOf, Entries;
    assert Round(cfg.flow, Entries(cfg.flow, cfg.entry), cfg.noreturn) == cfg.noreturn;
  }

  /** A function that is at an `exit` does return. */
  lemma ExitingFunctionReturns(cfg: Cfg, f: Frame)
    requires NeverExit(cfg) && FrameOk(cfg, f)
    requires Last(f.path) < |cfg.flow| && cfg.flow[Last(f.path)].Exit?
    ensures f.entry !in cfg.noreturn
  {
    hide Walk;
    assert WalkFromTo(cfg.flow, cfg.noreturn, f.path, f.entry, Last(f.path));
    assert Reaches(cfg.flow, cfg.noreturn, f.entry, Last(f.path));
    assert CanExit(cfg.flow, cfg.noreturn, f.entry);
  }

  lemma GotoOk(cfg: Cfg, f: Frame, pc: nat)
    requires FrameOk(cfg, f) && Edge(cfg.flow, cfg.noreturn, Last(f.path), pc)
    ensures FrameOk(cfg, Goto(f, pc))
  {
    hide Edge;
    var w, w' := f.path, f.path + [pc];
    forall i | 0 <= i < |w'| - 1
      ensures Edge(cfg.flow, cfg.noreturn, w'[i], w'[i + 1])
    {
      if i < |w| - 1 {
        assert Edge(cfg.flow, cfg.noreturn, w[i], w[i + 1]);
      }
    }
  }

  lemma ReplaceTop(cfg: Cfg, stack: seq<Frame>, pc: nat)
    requires StackOk(cfg, stack)
    requires FrameOk(cfg, Goto(stack[|stack| - 1], pc))
    ensures StackOk(cfg, stack[..|stack| - 1] + [Goto(stack[|stack| - 1], pc)])
  {
    hide FrameOk;
    var n := |stack|;
    var stack' := stack[..n - 1] + [Goto(stack[n - 1], pc)];
    forall i | 0 <= i < n - 1
      ensures Calls(cfg.flow, stack'[i], stack'[i + 1])
    {
      assert Calls(cfg.flow, stack[i], stack[i + 1]);
    }
  }

  lemma PushFrame(cfg: Cfg, stack: seq<Frame>, target: nat)
    requires StackOk(cfg, stack) && Calls(cfg.flow, stack[|stack| - 1], Frame(target, [target]))
    ensures StackOk(cfg, stack + [Frame(target, [target])])
  {
    hide Calls;
    var stack' := stack + [Frame(target, [target])];
    forall i | 0 <= i < |stack'| - 1
      ensures Calls(cfg.flow, stack'[i], stack'[i + 1])
    {
      if i < |stack| - 1 {
        assert Calls(cfg.flow, stack[i], stack[i + 1]);
      }
    }
  }

  lemma PrefixOk(cfg: Cfg, stack: seq<Frame>, n: nat)
    requires StackOk(cfg, stack) && 0 < n <= |stack|
    ensures StackOk(cfg, stack[..n])
  {
    hide FrameOk, Calls;
    forall i | 0 <= i < n - 1
      ensures Calls(cfg.flow, stack[..n][i], stack[..n][i + 1])
    {
      assert Calls(cfg.flow, stack[i], stack[i + 1]);
    }
  }

  lemma MoveKeepsStack(cfg: Cfg, image: Image, s: State, s': State, pc: nat)
    requires ValidImage(image) && cfg.flow == image.flow && StackOk(cfg, s.stack)
    requires Last(Top(s).path) < |cfg.flow| && Moves(image, s, s', pc)
    requires Edge(cfg.flow, cfg.noreturn, Last(Top(s).path), pc)
    ensures StackOk(cfg, s'.stack)
  {
    hide FrameOk, Edge, R0Step;
    GotoOk(cfg, Top(s), pc);
    ReplaceTop(cfg, s.stack, pc);
  }

  lemma ReturnKeepsStack(cfg: Cfg, s: State, s': State)
    requires NeverExit(cfg) && StackOk(cfg, s.stack) && Returns(s, s')
    requires Last(Top(s).path) < |cfg.flow| && cfg.flow[Last(Top(s).path)].Exit?
    ensures StackOk(cfg, s'.stack)
  {
    hide NeverExit;
    var n := |s.stack|;
    var caller, callee := s.stack[n - 2], s.stack[n - 1];
    assert Calls(cfg.flow, caller, callee) && FrameOk(cfg, caller) && FrameOk(cfg, callee);
    ExitingFunctionReturns(cfg, callee);
    var pc := Last(caller.path);
    assert Edge(cfg.flow, cfg.noreturn, pc, pc + 1);
    GotoOk(cfg, caller, pc + 1);
    PrefixOk(cfg, s.stack, n - 1);
    var below := s.stack[..n - 1];
    assert below[..n - 2] == s.stack[..n - 2];
    ReplaceTop(cfg, below, pc + 1);
  }

  lemma StepKeepsStack(cfg: Cfg, image: Image, s: State, s': State)
    requires NeverExit(cfg) && ValidImage(image) && cfg.flow == image.flow
    requires StackOk(cfg, s.stack) && Step(image, s, s')
    ensures StackOk(cfg, s'.stack)
  {
    hide NeverExit, FrameOk, Returns;
    var pc := Last(Top(s).path);
    match cfg.flow[pc]
    case Seq => MoveKeepsStack(cfg, image, s, s', pc + 1);
    case Jump(t) => MoveKeepsStack(cfg, image, s, s', t);
    case Branch(t) =>
      if Moves(image, s, s', t) {
        MoveKeepsStack(cfg, image, s, s', t);
      } else {
        MoveKeepsStack(cfg, image, s, s', pc + 1);
      }
    case Syscall(_, _) => MoveKeepsStack(cfg, image, s, s', pc + 1);
    case Call(t) => PushFrame(cfg, s.stack, t);
    case CallReg =>
      var t: nat :| Enters(s, s', t);
      PushFrame(cfg, s.stack, t);
    case Exit => ReturnKeepsStack(cfg, s, s');
    case Unresolved =>
  }

  lemma {:induction false} RunKeepsStack(cfg: Cfg, image: Image, run: seq<State>, i: nat)
    requires NeverExit(cfg) && ValidImage(image) && cfg.flow == image.flow
    requires Run(image, cfg.entry, run) && i < |run|
    ensures StackOk(cfg, run[i].stack)
  {
    hide NeverExit, Step;
    if i > 0 {
      RunKeepsStack(cfg, image, run, i - 1);
      assert Step(image, run[i - 1], run[i - 1 + 1]);
      StepKeepsStack(cfg, image, run[i - 1], run[i]);
    }
  }

  // ----- functions that never return -----

  /** In every run, no frame entered at a function of the computed set is ever popped: once it is
      at depth `d` it stays there. */
  lemma {:induction false} NoReturnFrameStays(cfg: Cfg, image: Image, run: seq<State>, d: nat, i: nat, j: nat)
    requires NeverExit(cfg) && ValidImage(image) && cfg.flow == image.flow
    requires Run(image, cfg.entry, run) && i <= j < |run|
    requires d < |run[i].stack| && run[i].stack[d].entry in cfg.noreturn
    ensures d < |run[j].stack| && run[j].stack[d].entry == run[i].stack[d].entry
    decreases j
  {
    hide NeverExit;
    if i < j {
      NoReturnFrameStays(cfg, image, run, d, i, j - 1);
      RunKeepsStack(cfg, image, run, j - 1);
      var s, s' := run[j - 1], run[j];
      assert Step(image, run[j - 1], run[j - 1 + 1]);
      var n := |s.stack|;
      if cfg.flow[Last(Top(s).path)].Exit? {
        assert FrameOk(cfg, Top(s));
        ExitingFunctionReturns(cfg, Top(s));
      }
    }
  }

  /** A program whose entry function is in the set never exits. */
  lemma NoReturnEntryNeverExits(cfg: Cfg, image: Image, run: seq<State>, i: nat)
    requires Recovered(cfg) && ValidImage(image) && cfg.flow == image.flow
    requires Run(image, cfg.entry, run) && i < |run| && AtExit(cfg.flow, run[i])
    ensures cfg.entry !in cfg.noreturn
  {
    hide Recovered, NeverExit;
    RecoveredNeverExit(cfg);
    RunKeepsStack(cfg, image, run, i);
    assert FrameOk(cfg, Top(run[i]));
    ExitingFunctionReturns(cfg, Top(run[i]));
  }

  /** The set is not all of the functions that never return: one that always calls itself before
      its `exit` is left out. */
  lemma SelfRecursionMissed(cfg: Cfg)
    requires cfg.flow == [Call(0), Exit] && cfg.entry == 0 && Recovered(cfg)
    ensures cfg.noreturn == {}
    ensures forall image: Image, run: seq<State>, i: nat ::
              ValidImage(image) && image.flow == cfg.flow && Run(image, 0, run) && i < |run|
              ==> |run[i].stack| == i + 1 && Top(run[i]).path == [0]
  {
    var entries := Entries(cfg.flow, 0);
    assert cfg.flow[0].target == 0;
    assert entries == {0};
    assert Edge(cfg.flow, {}, 0, 1);
    assert WalkFromTo(cfg.flow, {}, [0, 1], 0, 1);
    assert Reaches(cfg.flow, {}, 0, 1) && cfg.flow[1].Exit?;
    assert Round(cfg.flow, entries, {}) == {};
    forall image: Image, run: seq<State>, i: nat |
      ValidImage(image) && image.flow == cfg.flow && Run(image, 0, run) && i < |run|
      ensures |run[i].stack| == i + 1 && Top(run[i]).path == [0]
    {
      SelfCallsOnly(image, run, i);
    }
  }

  lemma {:induction false} SelfCallsOnly(image: Image, run: seq<State>, i: nat)
    requires ValidImage(image) && image.flow == [Call(0), Exit] && Run(image, 0, run) && i < |run|
    ensures |run[i].stack| == i + 1 && Top(run[i]).path == [0]
  {
    if i > 0 {
      SelfCallsOnly(image, run, i - 1);
      assert Step(image, run[i - 1], run[i - 1 + 1]);
    }
  }

  // ----- r0 at the program exit -----

  /** The value of `r0` at which each active function was entered. */
  ghost function EntryValues(run: seq<State>, i: nat): (vs: seq<u64>)
    requires i < |run|
    ensures |vs| == |run[i].stack|
  {
    var n := |run[i].stack|;
    var vs := if i == 0 then [] else EntryValues(run, i - 1);
    if |vs| >= n then vs[..n] else vs + seq(n - |vs|, _ => run[i].r0)
  }

  /** In the running function, `r0` is what its last definition allows, or still the value it was
      entered with. */
  ghost predicate R0Ok(image: Image, s: State, entered: seq<u64>)
    requires ValidImage(image)
  {
    |s.stack| > 0 && |entered| == |s.stack|
    && var w := Top(s).path;
       (forall i :: 0 <= i < |w| - 1 ==> w[i] < |image.flow|)
       && match LastDef(image, w)
          case None => s.r0 == entered[|entered| - 1]
          case Some(d) => DefAllows(d, s.r0)
  }

  lemma PathInside(cfg: Cfg, f: Frame)
    requires FrameOk(cfg, f)
    ensures forall i :: 0 <= i < |f.path| - 1 ==> f.path[i] < |cfg.flow|
  {
    hide Successors;
    forall i | 0 <= i < |f.path| - 1
      ensures f.path[i] < |cfg.flow|
    {
      assert Edge(cfg.flow, cfg.noreturn, f.path[i], f.path[i + 1]);
    }
  }

  /** Executing one more instruction: its definition if it makes one, the previous one if not. */
  lemma LastDefStep(image: Image, w: seq<nat>, q: nat, before: u64, after: u64, r0: u64)
    requires ValidImage(image) && |w| > 0
    requires forall i :: 0 <= i < |w| ==> w[i] < |image.flow|
    requires match R0Write(image, Last(w))
             case None => after == before
             case Some(d) => DefAllows(d, after)
    requires R0Write(image, Last(w)).None? ==>
               match LastDef(image, w)
               case None => before == r0
               case Some(d) => DefAllows(d, before)
    ensures match LastDef(image, w + [q])
            case None => after == r0
            case Some(d) => DefAllows(d, after)
  {
    hide R0Write, DefAllows;
    assert (w + [q])[..|w|] == w;
  }

  lemma StepKeepsR0(cfg: Cfg, image: Image, s: State, s': State, entered: seq<u64>, entered': seq<u64>)
    requires ValidImage(image) && cfg.flow == image.flow
    requires StackOk(cfg, s.stack) && StackOk(cfg, s'.stack) && Step(image, s, s') && R0Ok(image, s, entered)
    requires |entered'| == |s'.stack|
    requires if |s.stack| >= |s'.stack| then entered' <= entered else entered' == entered + [s'.r0]
    ensures R0Ok(image, s', entered')
  {
    hide R0Write, DefAllows, R0Step, LastDef, FrameOk, ValidImage;
    var pc := Last(Top(s).path);
    assert FrameOk(cfg, Top(s'));
    PathInside(cfg, Top(s'));
    if image.flow[pc].Exit? {
      var n := |s.stack|;
      var caller := s.stack[n - 2];
      assert Calls(cfg.flow, caller, s.stack[n - 1]) && FrameOk(cfg, caller);
      CallDefinesR0(image, Last(caller.path), s'.r0);
      PathInside(cfg, caller);
      LastDefStep(image, caller.path, Last(caller.path) + 1, s.r0, s'.r0, entered'[n - 2]);
    } else if image.flow[pc].Call? || image.flow[pc].CallReg? {
      FreshFrame(image, Top(s').path);
    } else {
      R0WriteSound(image, pc, s.r0, s'.r0);
      var w, q := Top(s).path, Last(Top(s').path);
      assert Top(s').path == w + [q];
      LastDefStep(image, w, q, s.r0, s'.r0, entered[|entered| - 1]);
    }
  }

  lemma FreshFrame(image: Image, w: seq<nat>)
    requires ValidImage(image) && |w| == 1
    ensures LastDef(image, w) == None
  {
  }

  lemma CallDefinesR0(image: Image, pc: nat, v: u64)
    requires ValidImage(image) && pc < |image.flow| && (image.flow[pc].Call? || image.flow[pc].CallReg?)
    ensures R0Write(image, pc).Some? && DefAllows(R0Write(image, pc).value, v)
  {
  }

  /** In every run and at every depth, `r0` is what the last definition of the running function
      allows, or the value the function was entered with. */
  lemma {:induction false} RunKeepsR0(cfg: Cfg, image: Image, run: seq<State>, i: nat)
    requires NeverExit(cfg) && ValidImage(image) && cfg.flow == image.flow
    requires Run(image, cfg.entry, run) && i < |run|
    ensures R0Ok(image, run[i], EntryValues(run, i)) && EntryValues(run, i)[0] == run[0].r0
  {
    hide NeverExit, StackOk, R0Ok;
    RunKeepsStack(cfg, image, run, i);
    if i == 0 {
      RunStartsR0(image, cfg.entry, run);
    } else {
      RunKeepsR0(cfg, image, run, i - 1);
      assert Step(image, run[i - 1], run[i - 1 + 1]);
      RunKeepsStack(cfg, image, run, i - 1);
      StackSteps(image, run[i - 1], run[i]);
      hide Step;
      StepKeepsR0(cfg, image, run[i - 1], run[i], EntryValues(run, i - 1), EntryValues(run, i));
    }
  }

  lemma RunStartsR0(image: Image, entry: nat, run: seq<State>)
    requires ValidImage(image) && Run(image, entry, run)
    ensures R0Ok(image, run[0], EntryValues(run, 0)) && EntryValues(run, 0)[0] == run[0].r0
  {
    FreshFrame(image, [entry]);
  }

  /** A step changes the depth by at most one and never empties the stack. */
  lemma StackSteps(image: Image, s: State, s': State)
    requires ValidImage(image) && Step(image, s, s')
    ensures 0 < |s'.stack| <= |s.stack| + 1
    ensures |s'.stack| > |s.stack| ==> s'.r0 == s.r0
  {
    hide R0Step;
  }

  lemma PathInBody(cfg: Cfg, stack: seq<Frame>, i: nat)
    requires Recovered(cfg) && StackOk(cfg, stack) && i < |stack[0].path| && stack[0].path[i] < |cfg.flow|
    ensures cfg.entry in cfg.functions && stack[0].path[i] in cfg.functions[cfg.entry]
  {
    hide Edge;
    var w := stack[0].path;
    assert FrameOk(cfg, stack[0]);
    var v := w[..i + 1];
    forall j | 0 <= j < |v| - 1
      ensures Edge(cfg.flow, cfg.noreturn, v[j], v[j + 1])
    {
      assert Edge(cfg.flow, cfg.noreturn, w[j], w[j + 1]);
    }
    assert WalkFromTo(cfg.flow, cfg.noreturn, v, cfg.entry, w[i]);
  }

  /** Every run that leaves the program through a success edge ends with `r0 = 0`, when it started
      with `r0 = 0`. */
  lemma SuccessEdgeEndsWithZero(cfg: Cfg, image: Image, edges: seq<ExitEdge>, run: seq<State>, i: nat)
    requires Recovered(cfg) && ValidImage(image) && cfg.flow == image.flow
    requires cfg.entry in cfg.functions && EdgesRight(image, cfg.noreturn, cfg.functions[cfg.entry], edges)
    requires Run(image, cfg.entry, run) && i < |run| && run[0].r0 == 0 && AtExit(cfg.flow, run[i])
    requires |run[i].stack[0].path| >= 2
    requires run[i].stack[0].path[|run[i].stack[0].path| - 2] in SuccessEdges(edges)
    ensures run[i].r0 == 0
  {
    hide Recovered, NeverExit, R0Write, Edge, LastDef, EdgesRight, SuccessEdges, DefAllows, EntryValues;
    RecoveredNeverExit(cfg);
    RunKeepsStack(cfg, image, run, i);
    RunKeepsR0(cfg, image, run, i);
    var s := run[i];
    var w, body := s.stack[0].path, cfg.functions[cfg.entry];
    assert FrameOk(cfg, s.stack[0]);
    PathInside(cfg, s.stack[0]);
    forall j | 0 <= j < |w| - 1
      ensures w[j] < |cfg.flow| && w[j] in body
    {
      PathInBody(cfg, s.stack, j);
    }
    if LastDef(image, w).Some? {
      SuccessDefIsZero(image, cfg.noreturn, body, edges, w, s.r0);
    }
  }

  /** The last definition on a path through a success edge is zero. */
  lemma SuccessDefIsZero(image: Image, noreturn: set<nat>, body: set<nat>, edges: seq<ExitEdge>, w: seq<nat>, v: u64)
    requires ValidImage(image) && EdgesRight(image, noreturn, body, edges)
    requires |w| >= 2 && Walk(image.flow, noreturn, w) && w[|w| - 2] in SuccessEdges(edges)
    requires forall i :: 0 <= i < |w| - 1 ==> w[i] < |image.flow| && w[i] in body
    requires LastDef(image, w).Some? && DefAllows(LastDef(image, w).value, v)
    ensures v == 0
  {
    hide R0Write, Edge, EdgeDef, LastDef, Walk, IntoExit;
    LastDefListed(image, noreturn, body, w);
    var k :| 0 <= k < |edges| && IsSuccess(edges[k]) && edges[k].from == w[|w| - 2];
    assert EdgeRight(image, noreturn, body, edges[k]);
    assert LastDef(image, w).value in edges[k].r0;
  }
}
