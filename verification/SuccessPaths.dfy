/** Guard certificates for success edges: the static successor graph, reachability with stops,
    dominating guards, and the acceptance of checkpoints. */
module SuccessPaths {
  import opened Words
  import opened Cfg
  import opened Outcomes
  import opened CallMachine

  // ----- the graph -----

  datatype Graph = Graph(succ: seq<seq<nat>>, pred: seq<seq<nat>>)

  /** Successors as the path checker sees them: syscalls fall through, indirect calls stop. */
  function GraphSucc(flow: seq<Flow>, noret: seq<nat>, pc: nat): seq<nat>
    requires pc < |flow|
  {
    match flow[pc]
    case Call(t) => if t in noret then [] else [pc + 1]
    case Exit => []
    case CallReg => []
    case Unresolved => []
    case Jump(t) => [t]
    case Branch(t) => [t, pc + 1]
    case _ => [pc + 1]
  }

  predicate Inside(targets: seq<nat>, n: nat) {
    forall i :: 0 <= i < |targets| ==> targets[i] < n
  }

  /** Every jump is resolved and no successor lies past the end. */
  predicate Resolvable(flow: seq<Flow>, noret: seq<nat>) {
    forall pc: nat :: pc < |flow| ==> !flow[pc].Unresolved? && Inside(GraphSucc(flow, noret, pc), |flow|)
  }

  ghost predicate SuccRight(succ: seq<seq<nat>>, flow: seq<Flow>, noret: seq<nat>) {
    |succ| == |flow| && forall pc: nat :: pc < |flow| ==> succ[pc] == GraphSucc(flow, noret, pc)
  }

  ghost predicate GraphRight(g: Graph, flow: seq<Flow>, noret: seq<nat>) {
    SuccRight(g.succ, flow, noret) && Resolvable(flow, noret)
    && |g.pred| == |flow|
    && (forall p: nat, q: nat :: p < |flow| && q < |flow| ==> (p in g.pred[q] <==> q in g.succ[p]))
    && (forall q: nat :: q < |flow| ==> Inside(g.pred[q], |flow|))
  }

  method NewSucc(flow: seq<Flow>, noret: seq<nat>) returns (r: Result<seq<seq<nat>>, nat>)
    ensures r.Ok? ==> SuccRight(r.value, flow, noret) && forall pc: nat :: pc < |flow| ==> !flow[pc].Unresolved?
    ensures r.Err? ==> r.error < |flow| && flow[r.error].Unresolved?
  {
    hide GraphSucc;
    var succ: seq<seq<nat>> := [];
    var pc := 0;
    while pc < |flow|
      invariant pc <= |flow| && |succ| == pc
      invariant forall p: nat :: p < pc ==> !flow[p].Unresolved? && succ[p] == GraphSucc(flow, noret, p)
    {
      if flow[pc].Unresolved? {
        return Err(pc);
      }
      succ := succ + [GraphSucc(flow, noret, pc)];
      pc := pc + 1;
    }
    r := Ok(succ);
  }

  method NewGraph(flow: seq<Flow>, noret: seq<nat>) returns (r: Result<Graph, nat>)
    ensures r.Ok? ==> GraphRight(r.value, flow, noret)
    ensures r.Ok? <==> Resolvable(flow, noret)
  {
    hide GraphSucc;
    var s := NewSucc(flow, noret);
    if s.Err? {
      return Err(s.error);
    }
    var succ, n := s.value, |flow|;
    var pred: seq<seq<nat>> := seq(n, _ => []);
    var pc := 0;
    while pc < n
      invariant pc <= n && |pred| == n
      invariant forall p: nat :: p < pc ==> Inside(succ[p], n)
      invariant forall p: nat, q: nat :: p < n && q < n ==> (p in pred[q] <==> p < pc && q in succ[p])
      invariant forall q: nat :: q < n ==> Inside(pred[q], n)
    {
      var i := 0;
      while i < |succ[pc]|
        invariant i <= |succ[pc]| && |pred| == n
        invariant forall j :: 0 <= j < i ==> succ[pc][j] < n
        invariant forall p: nat, q: nat :: p < n && q < n ==>
                    (p in pred[q] <==> (p < pc && q in succ[p]) || (p == pc && q in succ[pc][..i]))
        invariant forall q: nat :: q < n ==> Inside(pred[q], n)
      {
        var target := succ[pc][i];
        if target >= n {
          assert !Inside(GraphSucc(flow, noret, pc), n);
          return Err(pc);
        }
        pred := pred[target := pred[target] + [pc]];
        assert succ[pc][..i + 1] == succ[pc][..i] + [target];
        i := i + 1;
      }
      assert succ[pc][..i] == succ[pc];
      pc := pc + 1;
    }
    r := Ok(Graph(succ, pred));
  }

  // ----- reachability -----

  /** A walk over an adjacency list that leaves no stop: only its end may be one. */
  ghost predicate AdjWalk(adj: seq<seq<nat>>, stops: seq<nat>, w: seq<nat>) {
    |w| > 0 && (forall i :: 0 <= i < |w| ==> w[i] < |adj|)
    && forall i :: 0 <= i < |w| - 1 ==> w[i + 1] in adj[w[i]] && w[i] !in stops
  }

  ghost predicate AdjReaches(adj: seq<seq<nat>>, stops: seq<nat>, a: nat, b: nat) {
    exists w :: AdjWalk(adj, stops, w) && w[0] == a && Last(w) == b
  }

  lemma AdjReachesStep(adj: seq<seq<nat>>, stops: seq<nat>, a: nat, b: nat, c: nat)
    requires AdjReaches(adj, stops, a, b) && b < |adj| && c < |adj| && c in adj[b] && b !in stops
    ensures AdjReaches(adj, stops, a, c)
  {
    var w :| AdjWalk(adj, stops, w) && w[0] == a && Last(w) == b;
    assert AdjWalk(adj, stops, w + [c]);
  }

  lemma {:induction false} AdjClosed(adj: seq<seq<nat>>, stops: seq<nat>, seen: seq<bool>, w: seq<nat>)
    requires |seen| == |adj| && AdjWalk(adj, stops, w) && seen[w[0]]
    requires forall p: nat, q: nat :: p < |adj| && seen[p] && p !in stops && q in adj[p] && q < |adj| ==> seen[q]
    ensures seen[Last(w)]
  {
    if |w| > 1 {
      AdjClosed(adj, stops, seen, w[..|w| - 1]);
    }
  }

  function CountTrue(s: seq<bool>): (n: nat)
    ensures n <= |s|
  {
    if |s| == 0 then 0 else CountTrue(s[..|s| - 1]) + if s[|s| - 1] then 1 else 0
  }

  lemma {:induction false} CountSet(s: seq<bool>, i: nat)
    requires i < |s| && !s[i]
    ensures CountTrue(s[i := true]) == CountTrue(s) + 1
  {
    var n := |s| - 1;
    if i < n {
      CountSet(s[..n], i);
      assert s[i := true][..n] == s[..n][i := true];
    } else {
      assert s[i := true][..n] == s[..n];
    }
  }

  /** A worklist search that does not expand the stops. */
  method Reach(adj: seq<seq<nat>>, start: nat, stops: seq<nat>) returns (seen: seq<bool>)
    requires start < |adj| && forall p: nat :: p < |adj| ==> Inside(adj[p], |adj|)
    ensures |seen| == |adj|
    ensures forall q: nat :: q < |adj| ==> (seen[q] <==> AdjReaches(adj, stops, start, q))
  {
    hide AdjReaches, AdjWalk;
    seen := seq(|adj|, _ => false);
    var work: seq<nat> := [start];
    StartReached(adj, stops, start);
    while |work| > 0
      invariant |seen| == |adj|
      invariant forall i :: 0 <= i < |work| ==> work[i] < |adj| && AdjReaches(adj, stops, start, work[i])
      invariant forall q: nat :: q < |adj| && seen[q] ==> AdjReaches(adj, stops, start, q)
      invariant seen[start] || start in work
      invariant forall p: nat, q: nat :: p < |adj| && seen[p] && p !in stops && q in adj[p] ==> seen[q] || q in work
      decreases |adj| - CountTrue(seen), |work|
    {
      var pc := work[|work| - 1];
      ghost var before := work;
      work := work[..|work| - 1];
      assert before == work + [pc];
      if !seen[pc] {
        CountSet(seen, pc);
        seen := seen[pc := true];
        if pc !in stops {
          forall i | 0 <= i < |adj[pc]|
            ensures adj[pc][i] < |adj| && AdjReaches(adj, stops, start, adj[pc][i])
          {
            AdjReachesStep(adj, stops, start, pc, adj[pc][i]);
          }
          work := work + adj[pc];
        }
      }
    }
    forall q: nat | q < |adj| && AdjReaches(adj, stops, start, q)
      ensures seen[q]
    {
      ReachedSeen(adj, stops, start, q, seen);
    }
  }

  lemma StartReached(adj: seq<seq<nat>>, stops: seq<nat>, start: nat)
    requires start < |adj|
    ensures AdjReaches(adj, stops, start, start)
  {
    assert AdjWalk(adj, stops, [start]);
  }

  lemma ReachedSeen(adj: seq<seq<nat>>, stops: seq<nat>, start: nat, q: nat, seen: seq<bool>)
    requires |seen| == |adj| && start < |adj| && seen[start] && q < |adj| && AdjReaches(adj, stops, start, q)
    requires forall p: nat, q: nat :: p < |adj| && seen[p] && p !in stops && q in adj[p] && q < |adj| ==> seen[q]
    ensures seen[q]
  {
    var w :| AdjWalk(adj, stops, w) && w[0] == start && Last(w) == q;
    AdjClosed(adj, stops, seen, w);
  }

  // ----- walks of the graph -----

  type Adj = seq<seq<nat>>

  ghost predicate GWalk(succ: Adj, w: seq<nat>, a: nat, b: nat) {
    AdjWalk(succ, [], w) && w[0] == a && Last(w) == b
  }

  ghost predicate Connected(succ: Adj, a: nat, b: nat) {
    AdjReaches(succ, [], a, b)
  }

  lemma ReversedWalk(adj: Adj, radj: Adj, w: seq<nat>)
    requires |adj| == |radj| && AdjWalk(adj, [], w)
    requires forall p: nat, q: nat :: p < |adj| && q < |adj| && q in adj[p] ==> p in radj[q]
    ensures AdjWalk(radj, [], Reversed(w))
  {
    var v := Reversed(w);
    forall i | 0 <= i < |v| - 1
      ensures v[i + 1] in radj[v[i]]
    {
      var k := |v| - 2 - i;
      assert w[k + 1] in adj[w[k]] && v[i] == w[k + 1] && v[i + 1] == w[k];
    }
  }

  /** Searching backward over predecessors is searching forward over successors. */
  lemma BackwardIsForward(g: Graph, flow: seq<Flow>, noret: seq<nat>, a: nat, b: nat)
    requires GraphRight(g, flow, noret) && a < |flow| && b < |flow|
    ensures AdjReaches(g.pred, [], b, a) <==> Connected(g.succ, a, b)
  {
    hide GraphSucc, Resolvable;
    if AdjReaches(g.pred, [], b, a) {
      var v :| AdjWalk(g.pred, [], v) && v[0] == b && Last(v) == a;
      ReversedWalk(g.pred, g.succ, v);
      assert AdjWalk(g.succ, [], Reversed(v)) && Last(Reversed(v)) == b;
    }
    if Connected(g.succ, a, b) {
      var w :| AdjWalk(g.succ, [], w) && w[0] == a && Last(w) == b;
      ReversedWalk(g.succ, g.pred, w);
      assert AdjWalk(g.pred, [], Reversed(w)) && Last(Reversed(w)) == a;
    }
  }

  // ----- guards -----

  datatype Guard = Guard(pc: nat, on: nat)

  /** The successors from which the edge can still be reached. */
  function Live(succ: seq<nat>, back: seq<bool>): (r: seq<nat>)
    requires Inside(succ, |back|)
  {
    if |succ| == 0 then []
    else
      var rest := Live(succ[1..], back);
      if back[succ[0]] then [succ[0]] + rest else rest
  }

  /** A conditional jump that every walk from `start` to `edge` passes, and leaves one way only. */
  ghost predicate IsGuard(succ: Adj, flow: seq<Flow>, start: nat, edge: nat, h: Guard) {
    h.pc < |flow| && |succ| == |flow| && h.pc != edge && flow[h.pc].Branch?
    && Connected(succ, start, h.pc) && Connected(succ, h.pc, edge)
    && h.on in succ[h.pc] && Connected(succ, h.on, edge)
    && (forall i, j :: 0 <= i < j < |succ[h.pc]| ==>
          !(Connected(succ, succ[h.pc][i], edge) && Connected(succ, succ[h.pc][j], edge)))
    && !AdjReaches(succ, [h.pc], start, edge)
  }

  lemma LiveOfTwo(succ: seq<nat>, back: seq<bool>, on: nat)
    requires |succ| == 2 && Inside(succ, |back|)
    ensures (|Live(succ, back)| == 1 && Live(succ, back)[0] == on)
            <==> (on in succ && back[on] && !(back[succ[0]] && back[succ[1]]))
  {
    assert succ[1..][1..] == [];
    assert Live(succ[1..], back) == if back[succ[1]] then [succ[1]] else [];
  }

  method Guards(g: Graph, flow: seq<Flow>, ghost noret: seq<nat>, start: nat, edge: nat) returns (gs: seq<Guard>)
    requires GraphRight(g, flow, noret) && start < |flow| && edge < |flow|
    ensures forall h :: h in gs <==> IsGuard(g.succ, flow, start, edge, h)
  {
    hide Connected, AdjReaches, GraphRight;
    AdjacencyInside(g, flow, noret);
    var back := Reach(g.pred, edge, []);
    var forward := Reach(g.succ, start, []);
    gs := [];
    var pc := 0;
    while pc < |flow|
      invariant pc <= |flow|
      invariant forall h :: h in gs <==> h.pc < pc && IsGuard(g.succ, flow, start, edge, h)
    {
      SearchMeans(g, flow, noret, start, edge, pc, back, forward);
      if pc != edge && back[pc] && forward[pc] && flow[pc].Branch? {
        BranchSuccessors(g, flow, noret, pc);
        var on := Live(g.succ[pc], back);
        var around := Reach(g.succ, start, [pc]);
        forall h: Guard | h.pc == pc
          ensures IsGuard(g.succ, flow, start, edge, h) <==> |on| == 1 && on[0] == h.on && !around[edge]
        {
          LiveMeans(g, flow, noret, start, edge, h, back);
        }
        if |on| == 1 && !around[edge] {
          gs := gs + [Guard(pc, on[0])];
        }
      }
      pc := pc + 1;
    }
  }

  lemma AdjacencyInside(g: Graph, flow: seq<Flow>, noret: seq<nat>)
    requires GraphRight(g, flow, noret)
    ensures |g.succ| == |g.pred| == |flow|
    ensures forall p: nat :: p < |flow| ==> Inside(g.succ[p], |flow|) && Inside(g.pred[p], |flow|)
  {
    hide GraphSucc;
  }

  lemma BranchSuccessors(g: Graph, flow: seq<Flow>, noret: seq<nat>, pc: nat)
    requires GraphRight(g, flow, noret) && pc < |flow| && flow[pc].Branch?
    ensures |g.succ| == |flow| && |g.succ[pc]| == 2
  {
  }

  lemma SearchMeans(g: Graph, flow: seq<Flow>, noret: seq<nat>, start: nat, edge: nat, pc: nat, back: seq<bool>, forward: seq<bool>)
    requires GraphRight(g, flow, noret) && start < |flow| && edge < |flow| && pc < |flow|
    requires |back| == |flow| && forall q: nat :: q < |flow| ==> (back[q] <==> AdjReaches(g.pred, [], edge, q))
    requires |forward| == |flow| && forall q: nat :: q < |flow| ==> (forward[q] <==> AdjReaches(g.succ, [], start, q))
    ensures back[pc] <==> Connected(g.succ, pc, edge)
    ensures forward[pc] <==> Connected(g.succ, start, pc)
  {
    hide AdjReaches, GraphRight;
    BackwardIsForward(g, flow, noret, pc, edge);
  }

  lemma LiveMeans(g: Graph, flow: seq<Flow>, noret: seq<nat>, start: nat, edge: nat, h: Guard, back: seq<bool>)
    requires GraphRight(g, flow, noret) && start < |flow| && edge < |flow|
    requires |back| == |flow| && forall q: nat :: q < |flow| ==> (back[q] <==> AdjReaches(g.pred, [], edge, q))
    requires h.pc < |flow| && h.pc != edge && flow[h.pc].Branch?
    requires Connected(g.succ, start, h.pc) && Connected(g.succ, h.pc, edge)
    requires Inside(g.succ[h.pc], |back|)
    ensures IsGuard(g.succ, flow, start, edge, h) <==>
              |Live(g.succ[h.pc], back)| == 1 && Live(g.succ[h.pc], back)[0] == h.on
              && !AdjReaches(g.succ, [h.pc], start, edge)
  {
    hide AdjReaches, GraphRight, Connected, Live;
    BranchSuccessors(g, flow, noret, h.pc);
    var succ := g.succ[h.pc];
    forall q: nat | q < |flow|
      ensures back[q] <==> Connected(g.succ, q, edge)
    {
      BackwardIsForward(g, flow, noret, q, edge);
    }
    LiveOfTwo(succ, back, h.on);
    assert h.on in succ ==> h.on < |flow|;
  }

  /** The walk visits the guard before its end and leaves it by the recorded successor each time. */
  ghost predicate Passes(w: seq<nat>, h: Guard) {
    (exists i :: 0 <= i < |w| - 1 && w[i] == h.pc)
    && forall i :: 0 <= i < |w| - 1 && w[i] == h.pc ==> w[i + 1] == h.on
  }

  /** A walk between two nodes that the stops separate meets a stop before its end. */
  lemma CutMet(succ: Adj, stops: seq<nat>, w: seq<nat>) returns (k: nat)
    requires AdjWalk(succ, [], w) && !AdjReaches(succ, stops, w[0], Last(w))
    ensures k < |w| - 1 && w[k] in stops
  {
    assert !AdjWalk(succ, stops, w);
    k :| k < |w| - 1 && w[k] in stops;
  }

  /** Every walk from `start` to `edge` visits the guard and leaves it by the recorded successor
      at every visit. */
  lemma GuardPassed(succ: Adj, flow: seq<Flow>, start: nat, edge: nat, h: Guard, w: seq<nat>)
    requires IsGuard(succ, flow, start, edge, h) && GWalk(succ, w, start, edge)
    ensures Passes(w, h)
  {
    var visit := CutMet(succ, [h.pc], w);
    assert w[visit] == h.pc;
    forall i | 0 <= i < |w| - 1 && w[i] == h.pc
      ensures w[i + 1] == h.on
    {
      assert AdjWalk(succ, [], w[i + 1..]) && Last(w[i + 1..]) == edge;
      assert Connected(succ, w[i + 1], edge);
      var targets := succ[h.pc];
      var x :| 0 <= x < |targets| && targets[x] == w[i + 1];
      var y :| 0 <= y < |targets| && targets[y] == h.on;
    }
  }

  // ----- acceptance -----

  datatype GuardPin = GuardPin(edge: nat, pc: nat, onSuccess: nat)

  datatype EdgeInput = EdgeInput(pc: nat, checkpoints: seq<nat>)

  datatype Inputs = Inputs(entry: nat, noreturn: seq<nat>, pins: seq<GuardPin>, edges: seq<EdgeInput>)

  predicate Distinct(s: seq<nat>) {
    forall i, j :: 0 <= i < j < |s| ==> s[i] != s[j]
  }

  function EdgePcs(edges: seq<EdgeInput>): (r: seq<nat>)
    ensures |r| == |edges| && forall i :: 0 <= i < |r| ==> r[i] == edges[i].pc
  {
    seq(|edges|, i requires 0 <= i < |edges| => edges[i].pc)
  }

  function SuccOf(flow: seq<Flow>, noret: seq<nat>): (r: Adj)
    ensures |r| == |flow| && forall pc: nat :: pc < |flow| ==> r[pc] == GraphSucc(flow, noret, pc)
  {
    seq(|flow|, pc requires 0 <= pc < |flow| => GraphSucc(flow, noret, pc))
  }

  predicate NoReturnBound(cfg: Cfg, noret: seq<nat>) {
    |noret| > 0 && Distinct(noret) && forall i :: 0 <= i < |noret| ==> noret[i] in cfg.noreturn
  }

  ghost predicate NoReachableCallx(succ: Adj, flow: seq<Flow>, entry: nat) {
    forall pc: nat :: pc < |flow| && Connected(succ, entry, pc) ==> !flow[pc].CallReg?
  }

  ghost predicate PinOk(succ: Adj, flow: seq<Flow>, entry: nat, p: GuardPin) {
    p.edge < |flow| && IsGuard(succ, flow, entry, p.edge, Guard(p.pc, p.onSuccess))
  }

  /** The checkpoints lie between the entry and the edge, and every walk meets one of them. */
  ghost predicate EdgeOk(succ: Adj, flow: seq<Flow>, entry: nat, success: set<nat>, e: EdgeInput) {
    e.pc in success && |e.checkpoints| > 0 && Distinct(e.checkpoints)
    && (forall i :: 0 <= i < |e.checkpoints| ==>
          e.checkpoints[i] < |flow| && Connected(succ, entry, e.checkpoints[i]) && Connected(succ, e.checkpoints[i], e.pc))
    && !AdjReaches(succ, e.checkpoints, entry, e.pc)
  }

  ghost predicate Accepted(cfg: Cfg, success: set<nat>, inputs: Inputs) {
    var succ := SuccOf(cfg.flow, inputs.noreturn);
    inputs.entry == cfg.entry && NoReturnBound(cfg, inputs.noreturn) && Resolvable(cfg.flow, inputs.noreturn)
    && NoReachableCallx(succ, cfg.flow, cfg.entry)
    && (forall i :: 0 <= i < |inputs.pins| ==> PinOk(succ, cfg.flow, cfg.entry, inputs.pins[i]))
    && |inputs.edges| > 0 && Distinct(EdgePcs(inputs.edges))
    && (forall i :: 0 <= i < |inputs.edges| ==> EdgeOk(succ, cfg.flow, cfg.entry, success, inputs.edges[i]))
  }

  method CheckPin(g: Graph, cfg: Cfg, ghost noret: seq<nat>, p: GuardPin) returns (ok: bool)
    requires GraphRight(g, cfg.flow, noret) && cfg.entry < |cfg.flow|
    ensures ok <==> PinOk(g.succ, cfg.flow, cfg.entry, p)
  {
    hide GraphRight, AdjReaches, Connected;
    if p.pc >= |cfg.flow| || !cfg.flow[p.pc].Branch? {
      return false;
    }
    if p.onSuccess != cfg.flow[p.pc].target && p.onSuccess != p.pc + 1 {
      PinLeavesBranch(g, cfg.flow, noret, p);
      return false;
    }
    if p.edge >= |cfg.flow| {
      return false;
    }
    var gs := Guards(g, cfg.flow, noret, cfg.entry, p.edge);
    ok := Guard(p.pc, p.onSuccess) in gs;
  }

  lemma PinLeavesBranch(g: Graph, flow: seq<Flow>, noret: seq<nat>, p: GuardPin)
    requires GraphRight(g, flow, noret) && p.pc < |flow| && flow[p.pc].Branch?
    requires p.onSuccess != flow[p.pc].target && p.onSuccess != p.pc + 1
    ensures |g.succ| == |flow| && p.onSuccess !in g.succ[p.pc]
  {
  }

  method CheckEdge(g: Graph, cfg: Cfg, ghost noret: seq<nat>, success: set<nat>, reachable: seq<bool>, e: EdgeInput)
    returns (ok: bool)
    requires GraphRight(g, cfg.flow, noret) && cfg.entry < |cfg.flow|
    requires forall pc: nat :: pc in success ==> pc < |cfg.flow|
    requires |reachable| == |cfg.flow|
    requires forall q: nat :: q < |cfg.flow| ==> (reachable[q] <==> AdjReaches(g.succ, [], cfg.entry, q))
    ensures ok <==> EdgeOk(g.succ, cfg.flow, cfg.entry, success, e)
  {
    hide GraphRight, AdjReaches;
    if e.pc !in success || |e.checkpoints| == 0 || !Distinct(e.checkpoints) {
      return false;
    }
    AdjacencyInside(g, cfg.flow, noret);
    var i := 0;
    while i < |e.checkpoints|
      invariant i <= |e.checkpoints|
      invariant forall j :: 0 <= j < i ==>
                  e.checkpoints[j] < |cfg.flow| && Connected(g.succ, cfg.entry, e.checkpoints[j])
                  && Connected(g.succ, e.checkpoints[j], e.pc)
    {
      var c := e.checkpoints[i];
      if c >= |cfg.flow| || !reachable[c] {
        return false;
      }
      var onward := Reach(g.succ, c, []);
      if !onward[e.pc] {
        return false;
      }
      i := i + 1;
    }
    var cut := Reach(g.succ, cfg.entry, e.checkpoints);
    ok := !cut[e.pc];
  }

  /** The checks of the certificate generator on the recovered control flow. */
  method Accept(cfg: Cfg, success: set<nat>, inputs: Inputs) returns (ok: bool)
    requires cfg.entry < |cfg.flow| && forall pc: nat :: pc in success ==> pc < |cfg.flow|
    ensures ok <==> Accepted(cfg, success, inputs)
  {
    hide GraphRight, AdjReaches, PinOk, EdgeOk, NoReturnBound, Resolvable, Distinct;
    if inputs.entry != cfg.entry || !NoReturnBound(cfg, inputs.noreturn) {
      return false;
    }
    var built := NewGraph(cfg.flow, inputs.noreturn);
    if built.Err? {
      return false;
    }
    var g := built.value;
    GraphSuccOf(g, cfg.flow, inputs.noreturn);
    AdjacencyInside(g, cfg.flow, inputs.noreturn);
    var reachable := Reach(g.succ, inputs.entry, []);
    var pc := 0;
    while pc < |cfg.flow|
      invariant pc <= |cfg.flow|
      invariant forall q: nat :: q < pc && Connected(g.succ, cfg.entry, q) ==> !cfg.flow[q].CallReg?
    {
      if reachable[pc] && cfg.flow[pc].CallReg? {
        return false;
      }
      pc := pc + 1;
    }
    var i := 0;
    while i < |inputs.pins|
      invariant i <= |inputs.pins|
      invariant forall j :: 0 <= j < i ==> PinOk(g.succ, cfg.flow, cfg.entry, inputs.pins[j])
    {
      var pinned := CheckPin(g, cfg, inputs.noreturn, inputs.pins[i]);
      if !pinned {
        return false;
      }
      i := i + 1;
    }
    if |inputs.edges| == 0 || !Distinct(EdgePcs(inputs.edges)) {
      return false;
    }
    i := 0;
    while i < |inputs.edges|
      invariant i <= |inputs.edges|
      invariant forall j :: 0 <= j < i ==> EdgeOk(g.succ, cfg.flow, cfg.entry, success, inputs.edges[j])
    {
      var checked := CheckEdge(g, cfg, inputs.noreturn, success, reachable, inputs.edges[i]);
      if !checked {
        return false;
      }
      i := i + 1;
    }
    ok := true;
  }

  lemma GraphSuccOf(g: Graph, flow: seq<Flow>, noret: seq<nat>)
    requires GraphRight(g, flow, noret)
    ensures g.succ == SuccOf(flow, noret)
  {
    hide GraphSucc, Resolvable;
  }

  // ----- runs of the program are walks of the graph -----

  /** A step of the recovered control flow is a step of the graph, except at an indirect call. */
  lemma CfgEdgeInGraph(cfg: Cfg, noret: seq<nat>, p: nat, q: nat)
    requires NoReturnBound(cfg, noret) && Edge(cfg.flow, cfg.noreturn, p, q) && !cfg.flow[p].CallReg?
    ensures q in GraphSucc(cfg.flow, noret, p)
  {
  }

  function Members(ts: seq<nat>): set<nat> {
    set t | t in ts
  }

  /** The graph is the control flow under the same terminal functions, without what follows an
      indirect call and with what follows a terminal system call. */
  lemma GraphEdgeIff(flow: seq<Flow>, noret: seq<nat>, p: nat, q: nat)
    requires p < |flow|
    ensures q in GraphSucc(flow, noret, p)
            <==> (!flow[p].CallReg? && Edge(flow, Members(noret), p, q)) || (EndsProgram(flow[p]) && q == p + 1)
  {
  }

  /** Every path of the recovered control flow from the entry is a walk of the accepted graph. */
  lemma {:induction false} CfgWalkInGraph(cfg: Cfg, inputs: Inputs, w: seq<nat>)
    requires NoReturnBound(cfg, inputs.noreturn) && Resolvable(cfg.flow, inputs.noreturn)
    requires NoReachableCallx(SuccOf(cfg.flow, inputs.noreturn), cfg.flow, cfg.entry)
    requires Walk(cfg.flow, cfg.noreturn, w) && w[0] == cfg.entry && cfg.entry < |cfg.flow|
    ensures AdjWalk(SuccOf(cfg.flow, inputs.noreturn), [], w)
  {
    hide GraphSucc, Edge, NoReturnBound;
    var succ := SuccOf(cfg.flow, inputs.noreturn);
    if |w| > 1 {
      var before := w[..|w| - 1];
      forall i | 0 <= i < |before| - 1
        ensures Edge(cfg.flow, cfg.noreturn, before[i], before[i + 1])
      {
        assert Edge(cfg.flow, cfg.noreturn, w[i], w[i + 1]);
      }
      CfgWalkInGraph(cfg, inputs, before);
      var p, q := Last(before), Last(w);
      assert Connected(succ, cfg.entry, p);
      assert Edge(cfg.flow, cfg.noreturn, w[|w| - 2], w[|w| - 1]);
      CfgEdgeInGraph(cfg, inputs.noreturn, p, q);
      assert Inside(GraphSucc(cfg.flow, inputs.noreturn, p), |cfg.flow|);
      forall i | 0 <= i < |w| - 1
        ensures w[i + 1] in succ[w[i]]
      {
        if i < |before| - 1 {
          assert before[i + 1] in succ[before[i]];
        }
      }
    }
  }

  /** What a certificate says of one walk `w` to the edge, split at index `k`. */
  ghost predicate SplitAt(succ: Adj, flow: seq<Flow>, entry: nat, e: EdgeInput, w: seq<nat>, k: nat) {
    k < |w| - 1 && w[k] in e.checkpoints
    && GWalk(succ, w[..k + 1], entry, w[k]) && GWalk(succ, w[k..], w[k], e.pc)
    && (forall h {:trigger IsGuard(succ, flow, entry, w[k], h)} :: IsGuard(succ, flow, entry, w[k], h) ==> Passes(w[..k + 1], h))
    && (forall h {:trigger IsGuard(succ, flow, w[k], e.pc, h)} :: IsGuard(succ, flow, w[k], e.pc, h) ==> Passes(w[k..], h))
  }

  lemma WalkHalves(succ: Adj, w: seq<nat>, k: nat)
    requires AdjWalk(succ, [], w) && k < |w|
    ensures AdjWalk(succ, [], w[..k + 1]) && Last(w[..k + 1]) == w[k]
    ensures AdjWalk(succ, [], w[k..]) && Last(w[k..]) == Last(w)
  {
    var u, v := w[..k + 1], w[k..];
    forall i | 0 <= i < |u| - 1
      ensures u[i + 1] in succ[u[i]]
    {
      assert w[i + 1] in succ[w[i]];
    }
    forall i | 0 <= i < |v| - 1
      ensures v[i + 1] in succ[v[i]]
    {
      assert w[k + i + 1] in succ[w[k + i]];
    }
  }

  /** Every walk from the entry to an accepted edge splits at a checkpoint; it passes every guard
      from the entry to the checkpoint before the split and every guard from the checkpoint to the
      edge after it. */
  lemma WalkSplits(succ: Adj, flow: seq<Flow>, entry: nat, success: set<nat>, e: EdgeInput, w: seq<nat>)
    returns (k: nat)
    requires EdgeOk(succ, flow, entry, success, e) && GWalk(succ, w, entry, e.pc)
    ensures SplitAt(succ, flow, entry, e, w, k)
  {
    hide IsGuard, Passes, AdjReaches;
    k := CutMet(succ, e.checkpoints, w);
    var u, v := w[..k + 1], w[k..];
    WalkHalves(succ, w, k);
    hide AdjWalk;
    forall h {:trigger IsGuard(succ, flow, entry, w[k], h)} | IsGuard(succ, flow, entry, w[k], h)
      ensures Passes(u, h)
    {
      GuardPassed(succ, flow, entry, w[k], h, u);
    }
    forall h {:trigger IsGuard(succ, flow, w[k], e.pc, h)} | IsGuard(succ, flow, w[k], e.pc, h)
      ensures Passes(v, h)
    {
      GuardPassed(succ, flow, w[k], e.pc, h, v);
    }
  }

  /** End to end: a run of the program, with its calls and indirect calls, that leaves the entry
      function through an accepted edge has passed the edge's guards on the way and ends with
      `r0 = 0`. */
  lemma AcceptedRunIsGuarded(
    cfg: Cfg, image: Image, edges: seq<ExitEdge>, inputs: Inputs, run: seq<State>, i: nat, e: EdgeInput)
    returns (k: nat)
    requires Recovered(cfg) && ValidImage(image) && cfg.flow == image.flow && cfg.entry < |cfg.flow|
    requires cfg.entry in cfg.functions && EdgesRight(image, cfg.noreturn, cfg.functions[cfg.entry], edges)
    requires Accepted(cfg, SuccessEdges(edges), inputs) && e in inputs.edges
    requires Run(image, cfg.entry, run) && i < |run| && run[0].r0 == 0 && AtExit(cfg.flow, run[i])
    requires var w := run[i].stack[0].path; |w| >= 2 && w[|w| - 2] == e.pc
    ensures run[i].r0 == 0
    ensures var w := run[i].stack[0].path;
            SplitAt(SuccOf(cfg.flow, inputs.noreturn), cfg.flow, cfg.entry, e, w[..|w| - 1], k)
  {
    hide Recovered, NeverExit, EdgesRight, IsGuard, Edge, NoReturnBound, Resolvable, AdjReaches, SplitAt, Entries, SuccessEdges;
    var w := run[i].stack[0].path;
    var v := w[..|w| - 1];
    var succ := SuccOf(cfg.flow, inputs.noreturn);
    RecoveredNeverExit(cfg);
    RunKeepsStack(cfg, image, run, i);
    assert FrameOk(cfg, run[i].stack[0]);
    forall j | 0 <= j < |v| - 1
      ensures Edge(cfg.flow, cfg.noreturn, v[j], v[j + 1])
    {
      assert Edge(cfg.flow, cfg.noreturn, w[j], w[j + 1]);
    }
    CfgWalkInGraph(cfg, inputs, v);
    assert EdgeOk(succ, cfg.flow, cfg.entry, SuccessEdges(edges), e);
    k := WalkSplits(succ, cfg.flow, cfg.entry, SuccessEdges(edges), e, v);
    SuccessEdgeEndsWithZero(cfg, image, edges, run, i);
  }
}
