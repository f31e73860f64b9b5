/** Exactly which functions never return: those of the greatest fixpoint of the recovery's round.
    The recovery computes the least one. */
module NoReturn {
  import opened Words
  import opened Cfg
  import opened Outcomes
  import opened CallMachine

  // ----- the greatest fixpoint -----

  /** The set after `k` rounds from all entries. */
  ghost function RoundsDown(flow: seq<Flow>, entries: set<nat>, k: nat): set<nat> {
    if k == 0 then entries else Round(flow, entries, RoundsDown(flow, entries, k - 1))
  }

  ghost function Greatest(flow: seq<Flow>, entries: set<nat>): set<nat> {
    RoundsDown(flow, entries, |entries|)
  }

  lemma {:induction false} DownShrinks(flow: seq<Flow>, entries: set<nat>, k: nat)
    ensures RoundsDown(flow, entries, k + 1) <= RoundsDown(flow, entries, k) <= entries
  {
    hide Round;
    RoundInside(flow, entries, RoundsDown(flow, entries, k));
    if k > 0 {
      DownShrinks(flow, entries, k - 1);
      RoundMonotone(flow, entries, RoundsDown(flow, entries, k), RoundsDown(flow, entries, k - 1));
      RoundInside(flow, entries, RoundsDown(flow, entries, k - 1));
    }
  }

  /** Going down, each round removes an entry until a round repeats the set. */
  lemma {:induction false} DownSettles(flow: seq<Flow>, entries: set<nat>, k: nat)
    ensures RoundsDown(flow, entries, k + 1) == RoundsDown(flow, entries, k)
            || |RoundsDown(flow, entries, k)| <= |entries| - k
  {
    hide Round;
    if k > 0 {
      DownSettles(flow, entries, k - 1);
      DownShrinks(flow, entries, k - 1);
      if RoundsDown(flow, entries, k) != RoundsDown(flow, entries, k - 1) {
        StrictSubsetSize(RoundsDown(flow, entries, k), RoundsDown(flow, entries, k - 1));
      }
    }
  }

  lemma {:induction false} BelowDown(flow: seq<Flow>, entries: set<nat>, m: set<nat>, k: nat)
    requires m <= Round(flow, entries, m)
    ensures m <= RoundsDown(flow, entries, k)
  {
    hide Round;
    RoundInside(flow, entries, m);
    if k > 0 {
      BelowDown(flow, entries, m, k - 1);
      RoundMonotone(flow, entries, m, RoundsDown(flow, entries, k - 1));
    }
  }

  /** As many rounds down as there are entries give the greatest fixpoint. */
  lemma GreatestIsFixpoint(flow: seq<Flow>, entries: set<nat>)
    ensures Round(flow, entries, Greatest(flow, entries)) == Greatest(flow, entries)
    ensures forall m {:trigger Round(flow, entries, m)} :: m <= Round(flow, entries, m) ==> m <= Greatest(flow, entries)
  {
    hide Round;
    var n := |entries|;
    DownSettles(flow, entries, n);
    DownShrinks(flow, entries, n);
    assert Round(flow, entries, RoundsDown(flow, entries, n)) == RoundsDown(flow, entries, n + 1);
    if |RoundsDown(flow, entries, n)| == 0 {
      assert RoundsDown(flow, entries, n) == {};
    }
    forall m {:trigger Round(flow, entries, m)} | m <= Round(flow, entries, m)
      ensures m <= Greatest(flow, entries)
    {
      BelowDown(flow, entries, m, n);
    }
  }

  // ----- runs from one state to another -----

  ghost predicate Trace(image: Image, run: seq<State>)
    requires ValidImage(image)
  {
    |run| > 0 && forall i :: 0 <= i < |run| - 1 ==> Step(image, run[i], run[i + 1])
  }

  ghost predicate Goes(image: Image, s: State, s': State)
    requires ValidImage(image)
  {
    exists run :: Trace(image, run) && run[0] == s && run[|run| - 1] == s'
  }

  lemma GoesItself(image: Image, s: State)
    requires ValidImage(image)
    ensures Goes(image, s, s)
  {
    assert Trace(image, [s]);
  }

  lemma GoesStep(image: Image, s: State, s': State, s'': State)
    requires ValidImage(image) && Goes(image, s, s') && Step(image, s', s'')
    ensures Goes(image, s, s'')
  {
    hide Step;
    var run :| Trace(image, run) && run[0] == s && run[|run| - 1] == s';
    var run' := run + [s''];
    forall i | 0 <= i < |run'| - 1
      ensures Step(image, run'[i], run'[i + 1])
    {
      if i < |run| - 1 {
        assert Step(image, run[i], run[i + 1]);
      }
    }
    assert Trace(image, run') && run'[|run'| - 1] == s'';
  }

  lemma GoesTrans(image: Image, s: State, s': State, s'': State)
    requires ValidImage(image) && Goes(image, s, s') && Goes(image, s', s'')
    ensures Goes(image, s, s'')
  {
    hide Step;
    var run :| Trace(image, run) && run[0] == s && run[|run| - 1] == s';
    var more :| Trace(image, more) && more[0] == s' && more[|more| - 1] == s'';
    var all := run + more[1..];
    forall i | 0 <= i < |all| - 1
      ensures Step(image, all[i], all[i + 1])
    {
      if i < |run| - 1 {
        assert Step(image, run[i], run[i + 1]);
      } else {
        assert Step(image, more[i - |run| + 1], more[i - |run| + 2]);
      }
    }
    assert Trace(image, all) && all[|all| - 1] == s'';
  }

  /** The same state with more frames below. */
  function On(base: seq<Frame>, s: State): State {
    s.(stack := base + s.stack)
  }

  lemma MovesLifts(image: Image, base: seq<Frame>, s: State, s': State, pc: nat)
    requires ValidImage(image) && |s.stack| > 0 && |Top(s).path| > 0 && Last(Top(s).path) < |image.flow|
    requires Moves(image, s, s', pc)
    ensures Top(On(base, s)) == Top(s) && Moves(image, On(base, s), On(base, s'), pc)
  {
    hide R0Step;
    var t := On(base, s);
    assert t.stack[..|t.stack| - 1] == base + s.stack[..|s.stack| - 1];
  }

  lemma ReturnsLifts(base: seq<Frame>, s: State, s': State)
    requires Returns(s, s')
    ensures Returns(On(base, s), On(base, s'))
  {
    var t, n := On(base, s), |s.stack|;
    assert t.stack[..|t.stack| - 2] == base + s.stack[..n - 2] && t.stack[|t.stack| - 2] == s.stack[n - 2];
  }

  /** Frames below the active ones do not matter to a step. */
  lemma StepLifts(image: Image, base: seq<Frame>, s: State, s': State)
    requires ValidImage(image) && Step(image, s, s')
    ensures Step(image, On(base, s), On(base, s'))
  {
    hide Moves, Returns;
    var t, t' := On(base, s), On(base, s');
    assert Top(t) == Top(s);
    forall q: nat | Moves(image, s, s', q)
      ensures Moves(image, t, t', q)
    {
      MovesLifts(image, base, s, s', q);
    }
    if Returns(s, s') {
      ReturnsLifts(base, s, s');
    }
    forall x: nat | Enters(s, s', x)
      ensures Enters(t, t', x)
    {
    }
  }

  lemma GoesLifts(image: Image, base: seq<Frame>, s: State, s': State)
    requires ValidImage(image) && Goes(image, s, s')
    ensures Goes(image, On(base, s), On(base, s'))
  {
    hide Step;
    var run :| Trace(image, run) && run[0] == s && run[|run| - 1] == s';
    var lifted := seq(|run|, i requires 0 <= i < |run| => On(base, run[i]));
    forall i | 0 <= i < |lifted| - 1
      ensures Step(image, lifted[i], lifted[i + 1])
    {
      assert Step(image, run[i], run[i + 1]);
      StepLifts(image, base, run[i], run[i + 1]);
    }
    assert Trace(image, lifted);
  }

  // ----- a function outside the greatest fixpoint returns -----

  function Alone(e: nat, w: seq<nat>, r0: u64): State {
    State([Frame(e, w)], r0)
  }

  lemma R0Total(image: Image, pc: nat, before: u64) returns (r: u64)
    requires ValidImage(image) && pc < |image.flow|
    ensures R0Step(image, pc, before, r)
  {
    var i := image.insns[pc];
    r := if WritesDst(i.opc) && i.dst == 0 then (if i.opc == MOV32_IMM then WrapU(i.imm) % TWO32 else WrapU(i.imm)) else before;
  }

  /** Entering a callee that is at its exit some time later resumes the caller. */
  lemma CallAndReturn(image: Image, f: Frame, r: u64, t: nat, w: seq<nat>, r': u64)
    requires ValidImage(image) && |f.path| > 0 && |w| > 0 && Last(f.path) < |image.flow|
    requires image.flow[Last(f.path)] == Call(t) || image.flow[Last(f.path)].CallReg?
    requires Last(w) < |image.flow| && image.flow[Last(w)].Exit?
    requires Goes(image, Alone(t, [t], r), Alone(t, w, r'))
    ensures Goes(image, State([f], r), State([Goto(f, Last(f.path) + 1)], r'))
  {
    hide R0Step, Goes;
    var s0, s1 := State([f], r), State([f, Frame(t, [t])], r);
    var s2, s3 := State([f, Frame(t, w)], r'), State([Goto(f, Last(f.path) + 1)], r');
    assert Enters(s0, s1, t);
    assert Step(image, s0, s1);
    assert Returns(s2, s3);
    assert Step(image, s2, s3);
    GoesItself(image, s0);
    GoesStep(image, s0, s0, s1);
    GoesLifts(image, [f], Alone(t, [t], r), Alone(t, w, r'));
    assert On([f], Alone(t, [t], r)) == s1 && On([f], Alone(t, w, r')) == s2;
    GoesTrans(image, s0, s1, s2);
    GoesStep(image, s0, s2, s3);
  }

  lemma PlainStep(image: Image, n: set<nat>, e: nat, w: seq<nat>, q: nat, r: u64) returns (r': u64)
    requires ValidImage(image) && |w| > 0 && Edge(image.flow, n, Last(w), q)
    requires !image.flow[Last(w)].Call? && !image.flow[Last(w)].CallReg?
    ensures Step(image, Alone(e, w, r), Alone(e, w + [q], r'))
  {
    var pc := Last(w);
    r' := R0Total(image, pc, r);
    hide R0Step;
    var s, s' := Alone(e, w, r), Alone(e, w + [q], r');
    assert s.stack[..0] + [Goto(Top(s), q)] == s'.stack;
    assert Moves(image, s, s', q);
  }

  /** Every walk that ends at an exit, with calls only into functions outside a round of the
      descent, is executed by some run. */
  lemma {:induction false} WalkRuns(image: Image, entries: set<nat>, k: nat, e: nat, w: seq<nat>, x: nat, r: u64)
    returns (r': u64)
    requires ValidImage(image) && CallTargets(image.flow) <= entries
    requires Walk(image.flow, RoundsDown(image.flow, entries, k), w) && w[0] == e
    requires x < |image.flow| && image.flow[x].Exit?
    ensures Goes(image, Alone(e, [e], r), Alone(e, w, r'))
    decreases k, 2, |w|
  {
    hide Step, Goes, RoundsDown, CallTargets, Edge;
    if |w| == 1 {
      assert w == [e];
      GoesItself(image, Alone(e, [e], r));
      return r;
    }
    var v, q := w[..|w| - 1], w[|w| - 1];
    var n := RoundsDown(image.flow, entries, k);
    ShorterWalk(image.flow, n, w);
    var r1 := WalkRuns(image, entries, k, e, v, x, r);
    assert w == v + [q];
    if image.flow[Last(v)].Call? || image.flow[Last(v)].CallReg? {
      CallEdge(image.flow, n, Last(v), q);
      r' := CallRuns(image, entries, k, e, v, x, r1);
      GoesTrans(image, Alone(e, [e], r), Alone(e, v, r1), Alone(e, w, r'));
    } else {
      r' := PlainStep(image, n, e, v, q, r1);
      GoesStep(image, Alone(e, [e], r), Alone(e, v, r1), Alone(e, w, r'));
    }
  }

  lemma CallEdge(flow: seq<Flow>, n: set<nat>, p: nat, q: nat)
    requires Edge(flow, n, p, q) && (flow[p].Call? || flow[p].CallReg?)
    ensures q == p + 1 && (flow[p].Call? ==> flow[p].target !in n)
  {
  }

  lemma ShorterWalk(flow: seq<Flow>, n: set<nat>, w: seq<nat>)
    requires Walk(flow, n, w) && |w| > 1
    ensures Walk(flow, n, w[..|w| - 1]) && Edge(flow, n, Last(w[..|w| - 1]), Last(w)) && Last(w[..|w| - 1]) < |flow|
  {
    hide Successors;
    var v := w[..|w| - 1];
    forall i | 0 <= i < |v| - 1
      ensures Edge(flow, n, v[i], v[i + 1])
    {
      assert Edge(flow, n, w[i], w[i + 1]);
    }
    assert Edge(flow, n, w[|w| - 2], w[|w| - 2 + 1]);
  }

  lemma {:induction false} CallRuns(image: Image, entries: set<nat>, k: nat, e: nat, v: seq<nat>, x: nat, r: u64)
    returns (r': u64)
    requires ValidImage(image) && CallTargets(image.flow) <= entries && |v| > 0 && Last(v) < |image.flow|
    requires image.flow[Last(v)].Call? || image.flow[Last(v)].CallReg?
    requires image.flow[Last(v)].Call? ==> image.flow[Last(v)].target !in RoundsDown(image.flow, entries, k)
    requires x < |image.flow| && image.flow[x].Exit?
    ensures Goes(image, Alone(e, v, r), Alone(e, v + [Last(v) + 1], r'))
    decreases k, 1, 0
  {
    hide Step, Goes, Round;
    var f := Frame(e, v);
    if image.flow[Last(v)].Call? {
      var t := image.flow[Last(v)].target;
      var w;
      w, r' := ReturnRuns(image, entries, k, t, r);
      CallAndReturn(image, f, r, t, w, r');
    } else {
      r' := r;
      GoesItself(image, Alone(x, [x], r));
      CallAndReturn(image, f, r, x, [x], r);
    }
  }

  lemma {:induction false} ReturnRuns(image: Image, entries: set<nat>, k: nat, t: nat, r: u64)
    returns (w: seq<nat>, r': u64)
    requires ValidImage(image) && CallTargets(image.flow) <= entries
    requires t in entries && t !in RoundsDown(image.flow, entries, k)
    ensures |w| > 0 && Last(w) < |image.flow| && image.flow[Last(w)].Exit?
    ensures Goes(image, Alone(t, [t], r), Alone(t, w, r'))
    decreases k, 0, 0
  {
    hide Goes;
    var n := RoundsDown(image.flow, entries, k - 1);
    assert CanExit(image.flow, n, t);
    var x: nat :| Reaches(image.flow, n, t, x) && image.flow[x].Exit?;
    w :| WalkFromTo(image.flow, n, w, t, x);
    r' := WalkRuns(image, entries, k - 1, t, w, x, r);
  }

  // ----- exactly the greatest fixpoint -----

  /** Some run from the function's entry reaches its exit with nothing above it: the frame is
      popped if there is a caller. */
  ghost predicate CanReturn(image: Image, e: nat)
    requires ValidImage(image)
  {
    exists run: seq<State>, i: nat :: Run(image, e, run) && i < |run| && AtExit(image.flow, run[i])
  }

  lemma ReturnsIff(image: Image, entries: set<nat>, e: nat)
    requires ValidImage(image) && CallTargets(image.flow) <= entries && e in entries
    ensures CanReturn(image, e) <==> e !in Greatest(image.flow, entries)
  {
    hide Round, Step, RoundsDown;
    var g := Greatest(image.flow, entries);
    GreatestIsFixpoint(image.flow, entries);
    if CanReturn(image, e) {
      var run: seq<State>, i: nat :| Run(image, e, run) && i < |run| && AtExit(image.flow, run[i]);
      var cfg := Cfg(image.flow, e, map[], g);
      FixpointNeverExit(cfg, entries);
      RunKeepsStack(cfg, image, run, i);
      assert FrameOk(cfg, run[i].stack[0]);
      ExitingFunctionReturns(cfg, run[i].stack[0]);
    }
    if e !in g {
      var w, r' := ReturnRuns(image, entries, |entries|, e, 0);
      var run :| Trace(image, run) && run[0] == Alone(e, [e], 0) && run[|run| - 1] == Alone(e, w, r');
      assert Run(image, e, run) && AtExit(image.flow, run[|run| - 1]);
    }
  }

  lemma FixpointNeverExit(cfg: Cfg, entries: set<nat>)
    requires Round(cfg.flow, entries, cfg.noreturn) == cfg.noreturn
    ensures NeverExit(cfg)
  {
    hide CanExit;
  }

  /** Under any frames, a call of such a function can be resumed: its frame is popped in some run. */
  lemma FramePopped(image: Image, entries: set<nat>, base: seq<Frame>, f: Frame, e: nat, r: u64) returns (r': u64)
    requires ValidImage(image) && CallTargets(image.flow) <= entries && e in entries
    requires e !in Greatest(image.flow, entries)
    requires |f.path| > 0 && Last(f.path) < |image.flow| && image.flow[Last(f.path)] == Call(e)
    ensures Goes(image, State(base + [f], r), State(base + [Goto(f, Last(f.path) + 1)], r'))
  {
    hide Goes, RoundsDown;
    var w;
    w, r' := ReturnRuns(image, entries, |entries|, e, r);
    CallAndReturn(image, f, r, e, w, r');
    GoesLifts(image, base, State([f], r), State([Goto(f, Last(f.path) + 1)], r'));
  }

  /** The computed set holds every function that never returns if and only if the least fixpoint is
      the greatest one, which as many rounds down as there are entries decide. */
  lemma CompleteIff(cfg: Cfg, image: Image)
    requires Recovered(cfg) && ValidImage(image) && cfg.flow == image.flow
    ensures (forall e: nat :: e in Entries(cfg.flow, cfg.entry) && !CanReturn(image, e) ==> e in cfg.noreturn)
            <==> cfg.noreturn == Greatest(cfg.flow, Entries(cfg.flow, cfg.entry))
  {
    hide CanReturn, RoundsDown, BodiesOf, CallTargets;
    var entries := Entries(cfg.flow, cfg.entry);
    var g := Greatest(cfg.flow, entries);
    GreatestIsFixpoint(cfg.flow, entries);
    assert Round(cfg.flow, entries, cfg.noreturn) == cfg.noreturn && Round(cfg.flow, entries, g) == g;
    assert cfg.noreturn <= g && g <= entries;
    forall e: nat | e in entries
      ensures CanReturn(image, e) <==> e !in g
    {
      ReturnsIff(image, entries, e);
    }
  }
}
