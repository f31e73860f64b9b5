/** Control-flow recovery: the function partition, the functions that never return, and the
    definitions of `r0` that reach the program exit. Program counters are logical. */
module Cfg {
  import opened Words

  datatype Flow =
    | Seq
    | Jump(target: nat)
    | Branch(target: nat)
    | Call(target: nat)
    | Syscall(hash: nat, name: Option<string>)
    | CallReg
    | Exit
    | Unresolved

  const NORETURN_SYSCALLS: set<string> := {"abort", "sol_panic_"}

  predicate EndsProgram(f: Flow) {
    f.Syscall? && f.name.Some? && f.name.value in NORETURN_SYSCALLS
  }

  // ----- the graph of one function -----

  predicate IsTerminal(flow: seq<Flow>, noreturn: set<nat>, pc: nat)
    requires pc < |flow|
  {
    match flow[pc]
    case Call(t) => t in noreturn
    case Syscall(_, _) => EndsProgram(flow[pc])
    case _ => false
  }

  function Successors(flow: seq<Flow>, noreturn: set<nat>, pc: nat): seq<nat>
    requires pc < |flow|
  {
    if IsTerminal(flow, noreturn, pc) then []
    else
      match flow[pc]
      case Exit => []
      case Unresolved => []
      case Jump(t) => [t]
      case Branch(t) => [t, pc + 1]
      case _ => [pc + 1]
  }

  ghost predicate Edge(flow: seq<Flow>, noreturn: set<nat>, p: nat, q: nat) {
    p < |flow| && q in Successors(flow, noreturn, p)
  }

  /** A walk through the instructions; only its last program counter may lie past the end. */
  ghost predicate Walk(flow: seq<Flow>, noreturn: set<nat>, w: seq<nat>) {
    |w| > 0 && forall i :: 0 <= i < |w| - 1 ==> Edge(flow, noreturn, w[i], w[i + 1])
  }

  function Last(w: seq<nat>): nat
    requires |w| > 0
  {
    w[|w| - 1]
  }

  ghost predicate WalkFromTo(flow: seq<Flow>, noreturn: set<nat>, w: seq<nat>, a: nat, b: nat) {
    Walk(flow, noreturn, w) && w[0] == a && Last(w) == b
  }

  ghost predicate Reaches(flow: seq<Flow>, noreturn: set<nat>, a: nat, b: nat) {
    b < |flow| && exists w :: WalkFromTo(flow, noreturn, w, a, b)
  }

  lemma ReachesItself(flow: seq<Flow>, noreturn: set<nat>, a: nat)
    requires a < |flow|
    ensures Reaches(flow, noreturn, a, a)
  {
    assert WalkFromTo(flow, noreturn, [a], a, a);
  }

  lemma ReachesStep(flow: seq<Flow>, noreturn: set<nat>, a: nat, b: nat, c: nat)
    requires Reaches(flow, noreturn, a, b) && Edge(flow, noreturn, b, c) && c < |flow|
    ensures Reaches(flow, noreturn, a, c)
  {
    var w :| WalkFromTo(flow, noreturn, w, a, b);
    assert WalkFromTo(flow, noreturn, w + [c], a, c);
  }

  /** A set closed under in-range successors holds every walk that starts in it. */
  lemma {:induction false} ClosedHoldsWalk(flow: seq<Flow>, noreturn: set<nat>, s: set<nat>, w: seq<nat>)
    requires forall p: nat, q: nat :: p in s && Edge(flow, noreturn, p, q) && q < |flow| ==> q in s
    requires Walk(flow, noreturn, w) && w[0] in s && Last(w) < |flow|
    ensures Last(w) in s
    decreases |w|
  {
    if |w| > 1 {
      var before := w[..|w| - 1];
      assert Edge(flow, noreturn, w[|w| - 2], w[|w| - 1]);
      forall i | 0 <= i < |before| - 1
        ensures Edge(flow, noreturn, before[i], before[i + 1])
      {
        assert Edge(flow, noreturn, w[i], w[i + 1]);
      }
      ClosedHoldsWalk(flow, noreturn, s, before);
    }
  }

  lemma {:induction false} BoundedSet(s: set<nat>, n: nat)
    requires forall x :: x in s ==> x < n
    ensures |s| <= n
  {
    if n > 0 {
      BoundedSet(s - {n - 1}, n - 1);
      if n - 1 in s {
        assert s == (s - {n - 1}) + {n - 1};
      } else {
        assert s == s - {n - 1};
      }
    } else {
      assert s == {};
    }
  }

  /** The instructions reachable from an entry without leaving the function. */
  method Body(flow: seq<Flow>, noreturn: set<nat>, entry: nat) returns (seen: set<nat>)
    ensures forall p: nat :: p in seen <==> Reaches(flow, noreturn, entry, p)
  {
    hide Successors, Walk;
    seen := {};
    var stack: seq<nat> := [entry];
    if entry < |flow| {
      ReachesItself(flow, noreturn, entry);
    }
    while |stack| > 0
      invariant forall p :: p in seen ==> Reaches(flow, noreturn, entry, p)
      invariant forall i :: 0 <= i < |stack| && stack[i] < |flow| ==> Reaches(flow, noreturn, entry, stack[i])
      invariant entry in seen || entry in stack || entry >= |flow|
      invariant forall p: nat, q: nat :: p in seen && Edge(flow, noreturn, p, q) && q < |flow| ==> q in seen || q in stack
      decreases |flow| - |seen|, |stack|
    {
      var pc := stack[|stack| - 1];
      ghost var before := stack;
      stack := stack[..|stack| - 1];
      assert before == stack + [pc];
      if pc < |flow| && pc !in seen {
        BoundedSet(seen + {pc}, |flow|);
        seen := seen + {pc};
        var succ := Successors(flow, noreturn, pc);
        forall i | 0 <= i < |succ| && succ[i] < |flow|
          ensures Reaches(flow, noreturn, entry, succ[i])
        {
          ReachesStep(flow, noreturn, entry, pc, succ[i]);
        }
        stack := stack + succ;
      }
    }
    forall p: nat | Reaches(flow, noreturn, entry, p)
      ensures p in seen
    {
      var w :| WalkFromTo(flow, noreturn, w, entry, p);
      WalkStartsInside(flow, noreturn, w);
      ClosedHoldsWalk(flow, noreturn, seen, w);
    }
  }

  lemma WalkStartsInside(flow: seq<Flow>, noreturn: set<nat>, w: seq<nat>)
    requires Walk(flow, noreturn, w) && Last(w) < |flow|
    ensures w[0] < |flow|
  {
    if |w| > 1 {
      assert Edge(flow, noreturn, w[0], w[1]);
    }
  }

  // ----- the functions that never return -----

  function CallTargets(flow: seq<Flow>): (ts: set<nat>)
    ensures forall pc :: 0 <= pc < |flow| && flow[pc].Call? ==> flow[pc].target in ts
  {
    set pc | 0 <= pc < |flow| && flow[pc].Call? :: flow[pc].target
  }

  function Entries(flow: seq<Flow>, entry: nat): set<nat> {
    CallTargets(flow) + {entry}
  }

  ghost predicate CanExit(flow: seq<Flow>, noreturn: set<nat>, e: nat) {
    exists x: nat :: Reaches(flow, noreturn, e, x) && flow[x].Exit?
  }

  /** One round: the functions that reach no exit when calls into `noreturn` are terminal. */
  ghost function Round(flow: seq<Flow>, entries: set<nat>, noreturn: set<nat>): set<nat> {
    set e | e in entries && !CanExit(flow, noreturn, e)
  }

  lemma EdgeShrinks(flow: seq<Flow>, n: set<nat>, n': set<nat>, p: nat, q: nat)
    requires n <= n' && Edge(flow, n', p, q)
    ensures Edge(flow, n, p, q)
  {
  }

  lemma ReachesShrinks(flow: seq<Flow>, n: set<nat>, n': set<nat>, a: nat, b: nat)
    requires n <= n' && Reaches(flow, n', a, b)
    ensures Reaches(flow, n, a, b)
  {
    hide Edge;
    var w :| WalkFromTo(flow, n', w, a, b);
    forall i | 0 <= i < |w| - 1
      ensures Edge(flow, n, w[i], w[i + 1])
    {
      EdgeShrinks(flow, n, n', w[i], w[i + 1]);
    }
    assert WalkFromTo(flow, n, w, a, b);
  }

  /** More terminal calls, fewer exits, more functions that never return. */
  lemma RoundMonotone(flow: seq<Flow>, entries: set<nat>, n: set<nat>, n': set<nat>)
    requires n <= n'
    ensures Round(flow, entries, n) <= Round(flow, entries, n')
  {
    forall e: nat | e in Round(flow, entries, n)
      ensures !CanExit(flow, n', e)
    {
      if CanExit(flow, n', e) {
        var x: nat :| Reaches(flow, n', e, x) && flow[x].Exit?;
        ReachesShrinks(flow, n, n', e, x);
      }
    }
  }

  ghost predicate IsLeastFixpoint(flow: seq<Flow>, entries: set<nat>, n: set<nat>) {
    Round(flow, entries, n) == n
    && forall m {:trigger Round(flow, entries, m)} :: Round(flow, entries, m) == m ==> n <= m
  }

  datatype Cfg = Cfg(flow: seq<Flow>, entry: nat, functions: map<nat, set<nat>>, noreturn: set<nat>)

  /** `functions` is exactly the reachable body of every entry. */
  ghost predicate BodiesOf(functions: map<nat, set<nat>>, flow: seq<Flow>, entries: set<nat>, noreturn: set<nat>) {
    functions.Keys == entries
    && forall e: nat, p: nat :: e in entries ==> (p in functions[e] <==> Reaches(flow, noreturn, e, p))
  }

  ghost predicate Recovered(cfg: Cfg) {
    IsLeastFixpoint(cfg.flow, Entries(cfg.flow, cfg.entry), cfg.noreturn)
    && BodiesOf(cfg.functions, cfg.flow, Entries(cfg.flow, cfg.entry), cfg.noreturn)
  }

  method Bodies(flow: seq<Flow>, noreturn: set<nat>, entries: set<nat>) returns (functions: map<nat, set<nat>>)
    ensures BodiesOf(functions, flow, entries, noreturn)
  {
    hide Reaches;
    functions := map[];
    var rest := entries;
    while rest != {}
      invariant rest <= entries && functions.Keys == entries - rest
      invariant forall e: nat, p: nat :: e in functions ==> (p in functions[e] <==> Reaches(flow, noreturn, e, p))
      decreases rest
    {
      var e :| e in rest;
      var b := Body(flow, noreturn, e);
      functions := functions[e := b];
      rest := rest - {e};
    }
  }

  /** The entries whose body holds no exit. */
  function WithoutExit(flow: seq<Flow>, functions: map<nat, set<nat>>): set<nat>
    requires forall e: nat, p: nat :: e in functions && p in functions[e] ==> p < |flow|
  {
    set e | e in functions && !exists p :: p in functions[e] && flow[p].Exit?
  }

  lemma WithoutExitIsRound(flow: seq<Flow>, functions: map<nat, set<nat>>, entries: set<nat>, noreturn: set<nat>)
    requires BodiesOf(functions, flow, entries, noreturn)
    ensures forall e: nat, p: nat :: e in functions && p in functions[e] ==> p < |flow|
    ensures WithoutExit(flow, functions) == Round(flow, entries, noreturn)
  {
    forall e: nat | e in entries
      ensures (exists p :: p in functions[e] && flow[p].Exit?) <==> CanExit(flow, noreturn, e)
    {
      if CanExit(flow, noreturn, e) {
        var x: nat :| Reaches(flow, noreturn, e, x) && flow[x].Exit?;
        assert x in functions[e];
      }
    }
  }

  /** The set after `k` rounds from the empty one. */
  ghost function RoundsUp(flow: seq<Flow>, entries: set<nat>, k: nat): set<nat> {
    if k == 0 then {} else Round(flow, entries, RoundsUp(flow, entries, k - 1))
  }

  /** Start from "everything returns" and grow to the least fixpoint. The sets of the successive
      rounds increase strictly until the last round repeats one, which takes at most one more round
      than there are entries. */
  method Build(flow: seq<Flow>, entry: nat) returns (cfg: Cfg, ghost rounds: nat)
    ensures cfg.flow == flow && cfg.entry == entry && Recovered(cfg)
    ensures 1 <= rounds <= |Entries(flow, entry)| + 1
    ensures var entries := Entries(flow, entry);
            cfg.noreturn == RoundsUp(flow, entries, rounds - 1)
            && forall k: nat :: k < rounds - 1 ==> RoundsUp(flow, entries, k) < RoundsUp(flow, entries, k + 1)
  {
    hide Reaches, CallTargets, CanExit, WithoutExit, Round;
    var entries := Entries(flow, entry);
    var noreturn: set<nat> := {};
    rounds := 0;
    RoundInside(flow, entries, {});
    while true
      invariant noreturn == RoundsUp(flow, entries, rounds)
      invariant noreturn <= entries && noreturn <= Round(flow, entries, noreturn)
      invariant forall m {:trigger Round(flow, entries, m)} :: Round(flow, entries, m) == m ==> noreturn <= m
      invariant rounds <= |noreturn|
      invariant forall k: nat :: k < rounds ==> RoundsUp(flow, entries, k) < RoundsUp(flow, entries, k + 1)
      decreases |entries| - |noreturn|
    {
      var functions := Bodies(flow, noreturn, entries);
      WithoutExitIsRound(flow, functions, entries, noreturn);
      var next := WithoutExit(flow, functions);
      SubsetSize(noreturn, entries);
      rounds := rounds + 1;
      if next == noreturn {
        return Cfg(flow, entry, functions, noreturn), rounds;
      }
      StrictSubsetSize(noreturn, next);
      RoundInside(flow, entries, noreturn);
      SubsetSize(next, entries);
      RoundMonotone(flow, entries, noreturn, next);
      forall m {:trigger Round(flow, entries, m)} | Round(flow, entries, m) == m
        ensures next <= m
      {
        RoundMonotone(flow, entries, noreturn, m);
      }
      noreturn := next;
    }
  }

  lemma RoundInside(flow: seq<Flow>, entries: set<nat>, n: set<nat>)
    ensures Round(flow, entries, n) <= entries
  {
  }

  lemma SubsetSize(a: set<nat>, b: set<nat>)
    requires a <= b
    ensures |a| <= |b|
  {
    assert b == a + (b - a);
  }

  lemma StrictSubsetSize(a: set<nat>, b: set<nat>)
    requires a <= b && a != b
    ensures |a| < |b|
  {
    assert b == a + (b - a);
    assert b - a != {};
  }
}
