/** Union-find with path compression over theorem variables, and the classes of the equality
    pass of `qedlift/src/witness.rs`. */
module UnionFind {
  import opened Words
  import opened SymExpr
  import opened Branch

  type Parents = map<Name, Name>
  type Ranks = map<Name, nat>

  /** The parent of `x` is in the map too, and lower in rank unless it is `x` itself. */
  ghost predicate Up(parent: Parents, rank: Ranks, x: Name) {
    x in parent ==>
      parent[x] in parent && x in rank && parent[x] in rank && (parent[x] == x || rank[parent[x]] < rank[x])
  }

  /** The parent map is closed and acyclic: every step towards a root lowers the rank. */
  ghost predicate Forest(parent: Parents, rank: Ranks) {
    parent.Keys == rank.Keys && forall x {:trigger Up(parent, rank, x)} :: Up(parent, rank, x)
  }

  /** The representative; a variable without an entry is its own. */
  ghost function Root(parent: Parents, rank: Ranks, x: Name): Name
    requires Forest(parent, rank)
    decreases if x in rank then rank[x] else 0
  {
    assert Up(parent, rank, x);
    if x !in parent || parent[x] == x then x else Root(parent, rank, parent[x])
  }

  lemma {:induction false} RootIsFixed(parent: Parents, rank: Ranks, x: Name)
    requires Forest(parent, rank)
    ensures var r := Root(parent, rank, x);
            (x in parent ==> r in parent && parent[r] == r && (r == x || rank[r] < rank[x]))
            && (x !in parent ==> r == x) && Root(parent, rank, r) == r
    decreases if x in rank then rank[x] else 0
  {
    assert Up(parent, rank, x);
    if x in parent && parent[x] != x {
      RootIsFixed(parent, rank, parent[x]);
    }
  }

  /** The same partition: every representative is unchanged. */
  ghost predicate SameRoots(p: Parents, q: Parents, rank: Ranks)
    requires Forest(p, rank) && Forest(q, rank)
  {
    forall x :: Root(p, rank, x) == Root(q, rank, x)
  }

  /** Pointing a variable at its representative moves no representative. */
  lemma CompressKeepsRoots(parent: Parents, rank: Ranks, c: Name)
    requires Forest(parent, rank) && c in parent
    ensures Forest(parent[c := Root(parent, rank, c)], rank)
    ensures SameRoots(parent[c := Root(parent, rank, c)], parent, rank)
  {
    RootIsFixed(parent, rank, c);
    hide Root;
    var q := parent[c := Root(parent, rank, c)];
    forall x
      ensures Up(q, rank, x)
    {
      assert Up(parent, rank, x);
    }
    forall x
      ensures Root(parent[c := Root(parent, rank, c)], rank, x) == Root(parent, rank, x)
    {
      CompressKeepsRoot(parent, rank, c, x);
    }
  }

  lemma {:induction false} CompressKeepsRoot(parent: Parents, rank: Ranks, c: Name, x: Name)
    requires Forest(parent, rank) && c in parent
    requires Forest(parent[c := Root(parent, rank, c)], rank)
    ensures Root(parent[c := Root(parent, rank, c)], rank, x) == Root(parent, rank, x)
    decreases if x in rank then rank[x] else 0
  {
    var r := Root(parent, rank, c);
    var q := parent[c := r];
    RootIsFixed(parent, rank, c);
    hide Root;
    WalkUp(q, rank, x);
    WalkUp(q, rank, r);
    WalkUp(parent, rank, x);
    assert Up(parent, rank, x);
    if x != c && x in parent && parent[x] != x {
      CompressKeepsRoot(parent, rank, c, parent[x]);
    }
  }

  /** `y` is met on the way from `x` to its representative. */
  ghost predicate OnWay(parent: Parents, rank: Ranks, x: Name, y: Name)
    requires Forest(parent, rank)
    decreases if x in rank then rank[x] else 0
  {
    assert Up(parent, rank, x);
    y == x || (x in parent && parent[x] != x && OnWay(parent, rank, parent[x], y))
  }

  lemma {:induction false} OnWayLower(parent: Parents, rank: Ranks, x: Name, y: Name)
    requires Forest(parent, rank) && x in parent && OnWay(parent, rank, x, y)
    ensures y in rank && x in rank && rank[y] <= rank[x]
    decreases if x in rank then rank[x] else 0
  {
    assert Up(parent, rank, x);
    if y != x {
      OnWayLower(parent, rank, parent[x], y);
    }
  }

  /** While the second loop is at `cur`: what lies ahead still has its old parent, everything else
      on the way points at the representative, and no other variable has moved. */
  ghost predicate Compressing(parent0: Parents, parent: Parents, rank: Ranks, x: Name, cur: Name, root: Name)
    requires Forest(parent0, rank)
  {
    parent.Keys == parent0.Keys
    && (forall y :: y in parent0 && OnWay(parent0, rank, cur, y) ==> parent[y] == parent0[y])
    && (forall y :: y in parent0 && OnWay(parent0, rank, x, y) ==> OnWay(parent0, rank, cur, y) || parent[y] == root)
    && (forall y :: y in parent0 && !OnWay(parent0, rank, x, y) ==> parent[y] == parent0[y])
    && (forall y :: OnWay(parent0, rank, cur, y) ==> OnWay(parent0, rank, x, y))
  }

  lemma OnWayUnfolds(parent: Parents, rank: Ranks, cur: Name)
    requires Forest(parent, rank) && cur in parent && parent[cur] != cur
    ensures forall y :: OnWay(parent, rank, cur, y) <==> y == cur || OnWay(parent, rank, parent[cur], y)
    ensures !OnWay(parent, rank, parent[cur], cur)
  {
    assert Up(parent, rank, cur);
    if OnWay(parent, rank, parent[cur], cur) {
      OnWayLower(parent, rank, parent[cur], cur);
    }
  }

  lemma CompressingStep(parent0: Parents, parent: Parents, rank: Ranks, x: Name, cur: Name, root: Name)
    requires Forest(parent0, rank) && Compressing(parent0, parent, rank, x, cur, root)
    requires cur in parent0 && parent0[cur] != cur
    ensures parent[cur] == parent0[cur]
    ensures Compressing(parent0, parent[cur := root], rank, x, parent0[cur], root)
  {
    hide OnWay;
    OnWayUnfolds(parent0, rank, cur);
    assert OnWay(parent0, rank, cur, cur);
  }

  /** `uf_find`: the representative. Every variable on the way now points at it, no other moves,
      and the partition is kept. It terminates on every forest. */
  method Find(parent0: Parents, ghost rank: Ranks, x: Name) returns (parent: Parents, root: Name)
    requires Forest(parent0, rank)
    ensures Forest(parent, rank) && root == Root(parent0, rank, x)
    ensures SameRoots(parent, parent0, rank) && parent.Keys == parent0.Keys
    ensures forall y :: y in parent0 ==>
              parent[y] == if OnWay(parent0, rank, x, y) then root else parent0[y]
  {
    hide Root, Up, OnWay, Compressing;
    parent := parent0;
    root := x;
    while root in parent && parent[root] != root
      invariant Root(parent, rank, root) == Root(parent, rank, x)
      invariant x in parent ==> root in parent
      invariant x !in parent ==> root == x
      decreases if root in rank then rank[root] else 0
    {
      StepUp(parent, rank, root);
      root := parent[root];
    }
    WalkUp(parent, rank, root);
    assert root == Root(parent0, rank, x);
    CompressingStarts(parent0, rank, x, root);
    var cur := x;
    while cur != root
      invariant Forest(parent, rank) && SameRoots(parent, parent0, rank)
      invariant Root(parent0, rank, cur) == root
      invariant Compressing(parent0, parent, rank, x, cur, root)
      invariant root in parent0 ==> parent0[root] == root
      decreases if cur in rank then rank[cur] else 0
    {
      StepUp(parent0, rank, cur);
      CompressingStep(parent0, parent, rank, x, cur, root);
      var next := if cur in parent then parent[cur] else root;
      assert Root(parent, rank, cur) == root;
      CompressingKeys(parent0, parent, rank, x, cur, root);
      CompressKeepsRoots(parent, rank, cur);
      parent := parent[cur := root];
      cur := next;
    }
    CompressingEnds(parent0, parent, rank, x, root);
  }

  lemma CompressingKeys(parent0: Parents, parent: Parents, rank: Ranks, x: Name, cur: Name, root: Name)
    requires Forest(parent0, rank) && Compressing(parent0, parent, rank, x, cur, root)
    ensures parent.Keys == parent0.Keys
  {
  }

  lemma CompressingStarts(parent0: Parents, rank: Ranks, x: Name, root: Name)
    requires Forest(parent0, rank)
    ensures Compressing(parent0, parent0, rank, x, x, root)
  {
    hide OnWay;
  }

  lemma CompressingEnds(parent0: Parents, parent: Parents, rank: Ranks, x: Name, root: Name)
    requires Forest(parent0, rank) && Compressing(parent0, parent, rank, x, root, root)
    requires root in parent0 ==> parent0[root] == root
    ensures parent.Keys == parent0.Keys
    ensures forall y :: y in parent0 ==>
              parent[y] == if OnWay(parent0, rank, x, y) then root else parent0[y]
  {
    assert forall y :: OnWay(parent0, rank, root, y) ==> y == root || root in parent0;
    assert forall y :: OnWay(parent0, rank, root, y) ==> y == root;
    hide OnWay;
  }

  /** One unfolding of `Root`. */
  lemma WalkUp(parent: Parents, rank: Ranks, x: Name)
    requires Forest(parent, rank)
    ensures x in parent && parent[x] != x ==> Root(parent, rank, x) == Root(parent, rank, parent[x])
    ensures x !in parent || parent[x] == x ==> Root(parent, rank, x) == x
  {
  }

  lemma StepUp(parent: Parents, rank: Ranks, x: Name)
    requires Forest(parent, rank) && ((x in parent && parent[x] != x) || Root(parent, rank, x) != x)
    ensures x in parent && x in rank && parent[x] in parent && parent[x] in rank
    ensures rank[parent[x]] < rank[x] && Root(parent, rank, x) == Root(parent, rank, parent[x])
  {
    assert Up(parent, rank, x);
  }

  // ----- joining two classes -----

  ghost function JoinedRanks(parent: Parents, rank: Ranks, ra: Name, rb: Name): Ranks
    requires Forest(parent, rank) && rb in rank
  {
    map x | x in rank :: if Root(parent, rank, x) == ra then rank[x] + rank[rb] + 1 else rank[x]
  }

  ghost predicate IsRoot(parent: Parents, r: Name) {
    r in parent && parent[r] == r
  }

  lemma JoinIsForest(parent: Parents, rank: Ranks, ra: Name, rb: Name)
    requires Forest(parent, rank) && ra != rb && IsRoot(parent, ra) && IsRoot(parent, rb)
    ensures Forest(parent[ra := rb], JoinedRanks(parent, rank, ra, rb))
  {
    hide Root;
    var q, s := parent[ra := rb], JoinedRanks(parent, rank, ra, rb);
    WalkUp(parent, rank, ra);
    WalkUp(parent, rank, rb);
    assert q.Keys == s.Keys;
    forall x
      ensures Up(q, s, x)
    {
      WalkUp(parent, rank, x);
      assert Up(parent, rank, x);
    }
  }

  /** Joining moves exactly the members of one class to the other's representative. */
  lemma {:induction false} JoinedRoot(parent: Parents, rank: Ranks, ra: Name, rb: Name, x: Name)
    requires Forest(parent, rank) && ra != rb && IsRoot(parent, ra) && IsRoot(parent, rb)
    requires Forest(parent[ra := rb], JoinedRanks(parent, rank, ra, rb))
    ensures Root(parent[ra := rb], JoinedRanks(parent, rank, ra, rb), x)
            == if Root(parent, rank, x) == ra then rb else Root(parent, rank, x)
    decreases if x in rank then rank[x] else 0
  {
    var q, s := parent[ra := rb], JoinedRanks(parent, rank, ra, rb);
    hide Root;
    WalkUp(parent, rank, x);
    WalkUp(q, s, x);
    WalkUp(q, s, rb);
    assert Up(parent, rank, x);
    if x in parent && parent[x] != x {
      JoinedRoot(parent, rank, ra, rb, parent[x]);
    }
  }

  // ----- variables and equalities -----

  /** The variables of an expression, left to right with repetitions. */
  function Vars(e: Expr): seq<Name>
    decreases e, 1
  {
    match e
    case InitReg(n) => [n]
    case InitMem(n) => [n]
    case ToU64(a) => Vars(a)
    case Unary(_, a) => Vars(a)
    case Binary(_, a, b) => Vars(a) + Vars(b)
    case ByteCombo(bytes) => VarsOfAll(bytes)
    case _ => []
  }

  function VarsOfAll(es: seq<Expr>): seq<Name>
    decreases es, 0
  {
    if |es| == 0 then [] else Vars(es[0]) + VarsOfAll(es[1..])
  }

  function BranchVars(h: BranchHyp): seq<Name> {
    Vars(h.dst) + (if h.src.Some? then Vars(h.src.value) else [])
  }

  predicate IsEquality(h: BranchHyp) {
    (h.kind == Reg64(Eq) && h.taken) || (h.kind == Reg64(Ne) && !h.taken)
  }

  /** The two variables a register equality between single variables identifies. */
  function EqualityPair(h: BranchHyp): Option<(Name, Name)> {
    if !IsEquality(h) || h.src.None? then None
    else
      var dv, sv := Vars(h.dst), Vars(h.src.value);
      if |dv| == 1 && |sv| == 1 then Some((dv[0], sv[0])) else None
  }

  /** Some hypothesis equates the two variables, in either order. */
  ghost predicate Equated(branches: seq<BranchHyp>, a: Name, b: Name) {
    exists i :: 0 <= i < |branches|
                && (EqualityPair(branches[i]) == Some((a, b)) || EqualityPair(branches[i]) == Some((b, a)))
  }

  ghost predicate Chain(branches: seq<BranchHyp>, p: seq<Name>) {
    |p| > 0 && forall i :: 0 <= i < |p| - 1 ==> Equated(branches, p[i], p[i + 1])
  }

  /** A chain of single-variable register equalities links the two. */
  ghost predicate Linked(branches: seq<BranchHyp>, a: Name, b: Name) {
    exists p :: Chain(branches, p) && p[0] == a && p[|p| - 1] == b
  }

  lemma LinkedRefl(branches: seq<BranchHyp>, a: Name)
    ensures Linked(branches, a, a)
  {
    assert Chain(branches, [a]);
  }

  lemma LinkedStep(branches: seq<BranchHyp>, a: Name, b: Name)
    requires Equated(branches, a, b)
    ensures Linked(branches, a, b)
  {
    var p := [a, b];
    assert Chain(branches, p) && p[|p| - 1] == b;
  }

  lemma LinkedTrans(branches: seq<BranchHyp>, a: Name, b: Name, c: Name)
    requires Linked(branches, a, b) && Linked(branches, b, c)
    ensures Linked(branches, a, c)
  {
    hide Equated;
    var p :| Chain(branches, p) && p[0] == a && p[|p| - 1] == b;
    var q :| Chain(branches, q) && q[0] == b && q[|q| - 1] == c;
    var r := p + q[1..];
    forall i | 0 <= i < |r| - 1
      ensures Equated(branches, r[i], r[i + 1])
    {
      if i >= |p| - 1 {
        assert Equated(branches, q[i - |p| + 1], q[i - |p| + 2]);
      } else {
        assert Equated(branches, p[i], p[i + 1]);
      }
    }
    assert Chain(branches, r) && r[|r| - 1] == c;
  }

  lemma LinkedSym(branches: seq<BranchHyp>, a: Name, b: Name)
    requires Linked(branches, a, b)
    ensures Linked(branches, b, a)
  {
    var p :| Chain(branches, p) && p[0] == a && p[|p| - 1] == b;
    var r := seq(|p|, i requires 0 <= i < |p| => p[|p| - 1 - i]);
    forall i | 0 <= i < |r| - 1
      ensures Equated(branches, r[i], r[i + 1])
    {
      assert Equated(branches, p[|p| - 2 - i], p[|p| - 2 - i + 1]);
    }
    assert Chain(branches, r) && r[|r| - 1] == a;
  }

  lemma LinkedGrows(branches: seq<BranchHyp>, more: seq<BranchHyp>, a: Name, b: Name)
    requires Linked(branches, a, b) && branches <= more
    ensures Linked(more, a, b)
  {
    var p :| Chain(branches, p) && p[0] == a && p[|p| - 1] == b;
    forall i | 0 <= i < |p| - 1
      ensures Equated(more, p[i], p[i + 1])
    {
      assert Equated(branches, p[i], p[i + 1]);
    }
    assert Chain(more, p);
  }

  // ----- the equality pass -----

  /** What the pass keeps after the equalities of `done`: equated variables share a
      representative, and every variable is linked to its own. */
  ghost predicate PassRight(done: seq<BranchHyp>, parent: Parents, rank: Ranks) {
    Forest(parent, rank)
    && (forall i :: 0 <= i < |done| && EqualityPair(done[i]).Some? ==>
          var p := EqualityPair(done[i]).value; Root(parent, rank, p.0) == Root(parent, rank, p.1))
    && (forall x :: x in parent ==> Linked(done, x, Root(parent, rank, x)))
  }

  lemma {:induction false} ChainSharesRoot(done: seq<BranchHyp>, parent: Parents, rank: Ranks, p: seq<Name>)
    requires PassRight(done, parent, rank) && Chain(done, p)
    ensures Root(parent, rank, p[0]) == Root(parent, rank, p[|p| - 1])
  {
    hide Linked, Root;
    if |p| > 1 {
      assert Equated(done, p[0], p[0 + 1]);
      forall i | 0 <= i < |p[1..]| - 1
        ensures Equated(done, p[1..][i], p[1..][i + 1])
      {
        assert Equated(done, p[i + 1], p[i + 1 + 1]);
      }
      ChainSharesRoot(done, parent, rank, p[1..]);
    }
  }

  /** Two variables have one representative exactly when a chain of equalities links them. */
  lemma SharedRootIffLinked(done: seq<BranchHyp>, parent: Parents, rank: Ranks, x: Name, y: Name)
    requires PassRight(done, parent, rank) && x in parent && y in parent
    ensures Root(parent, rank, x) == Root(parent, rank, y) <==> Linked(done, x, y)
  {
    if Linked(done, x, y) {
      var p :| Chain(done, p) && p[0] == x && p[|p| - 1] == y;
      ChainSharesRoot(done, parent, rank, p);
    }
    hide Linked, Root;
    if Root(parent, rank, x) == Root(parent, rank, y) {
      LinkedSym(done, y, Root(parent, rank, y));
      LinkedTrans(done, x, Root(parent, rank, x), y);
    }
  }

  /** Compressing paths keeps the pass's invariant. */
  lemma SameRootsPassRight(done: seq<BranchHyp>, parent: Parents, rank: Ranks, q: Parents)
    requires PassRight(done, parent, rank) && Forest(q, rank) && SameRoots(q, parent, rank)
    ensures PassRight(done, q, rank)
  {
    hide Linked, Root;
  }

  lemma SkipKeeps(done: seq<BranchHyp>, parent: Parents, rank: Ranks, h: BranchHyp)
    requires PassRight(done, parent, rank)
    requires EqualityPair(h).Some? ==>
               Root(parent, rank, EqualityPair(h).value.0) == Root(parent, rank, EqualityPair(h).value.1)
    ensures PassRight(done + [h], parent, rank)
  {
    hide Linked, Root;
    forall x | x in parent
      ensures Linked(done + [h], x, Root(parent, rank, x))
    {
      LinkedGrows(done, done + [h], x, Root(parent, rank, x));
    }
  }

  lemma JoinLinks(done: seq<BranchHyp>, parent: Parents, rank: Ranks, h: BranchHyp, x: Name)
    requires PassRight(done, parent, rank) && EqualityPair(h).Some? && x in parent
    requires EqualityPair(h).value.0 in parent && EqualityPair(h).value.1 in parent
    requires Root(parent, rank, x) == Root(parent, rank, EqualityPair(h).value.0)
    ensures Linked(done + [h], x, Root(parent, rank, EqualityPair(h).value.1))
  {
    var (a, b) := EqualityPair(h).value;
    var more := done + [h];
    assert Equated(more, a, b) by {
      assert more[|done|] == h;
    }
    SharedRootIffLinked(done, parent, rank, x, a);
    hide Root;
    LinkedGrows(done, more, x, a);
    LinkedStep(more, a, b);
    LinkedTrans(more, x, a, b);
    LinkedGrows(done, more, b, Root(parent, rank, b));
    LinkedTrans(more, x, b, Root(parent, rank, b));
  }

  lemma JoinKeeps(done: seq<BranchHyp>, parent: Parents, rank: Ranks, h: BranchHyp, ra: Name, rb: Name)
    requires PassRight(done, parent, rank) && EqualityPair(h).Some?
    requires var p := EqualityPair(h).value;
             p.0 in parent && p.1 in parent && ra == Root(parent, rank, p.0) && rb == Root(parent, rank, p.1)
    requires ra != rb && IsRoot(parent, ra) && IsRoot(parent, rb)
    ensures PassRight(done + [h], parent[ra := rb], JoinedRanks(parent, rank, ra, rb))
  {
    hide Root, Linked, JoinedRanks, EqualityPair, Forest;
    PassIsForest(done, parent, rank);
    JoinIsForest(parent, rank, ra, rb);
    JoinMoves(parent, rank, ra, rb);
    var q, s := parent[ra := rb], JoinedRanks(parent, rank, ra, rb);
    forall x | x in q
      ensures Linked(done + [h], x, Root(q, s, x))
    {
      if Root(parent, rank, x) == ra {
        JoinLinks(done, parent, rank, h, x);
      } else {
        LinkedGrows(done, done + [h], x, Root(parent, rank, x));
      }
    }
  }

  lemma JoinMoves(parent: Parents, rank: Ranks, ra: Name, rb: Name)
    requires Forest(parent, rank) && ra != rb && IsRoot(parent, ra) && IsRoot(parent, rb)
    requires Forest(parent[ra := rb], JoinedRanks(parent, rank, ra, rb))
    ensures forall x :: Root(parent[ra := rb], JoinedRanks(parent, rank, ra, rb), x)
                        == if Root(parent, rank, x) == ra then rb else Root(parent, rank, x)
  {
    hide Root, JoinedRanks;
    forall x
      ensures Root(parent[ra := rb], JoinedRanks(parent, rank, ra, rb), x)
              == if Root(parent, rank, x) == ra then rb else Root(parent, rank, x)
    {
      JoinedRoot(parent, rank, ra, rb, x);
    }
  }

  /** One equality of the pass. */
  method JoinOne(ghost done: seq<BranchHyp>, parent0: Parents, ghost rank0: Ranks, h: BranchHyp)
    returns (parent: Parents, ghost rank: Ranks)
    requires PassRight(done, parent0, rank0)
    requires EqualityPair(h).Some? ==> EqualityPair(h).value.0 in parent0 && EqualityPair(h).value.1 in parent0
    ensures PassRight(done + [h], parent, rank) && parent.Keys == parent0.Keys
  {
    hide Root, Linked, EqualityPair, JoinedRanks, PassRight;
    parent, rank := parent0, rank0;
    assert Forest(parent0, rank0) by { PassIsForest(done, parent0, rank0); }
    var pair := EqualityPair(h);
    if pair.Some? {
      var ra, rb;
      parent, ra := Find(parent, rank, pair.value.0);
      SameRootsPassRight(done, parent0, rank, parent);
      ghost var mid := parent;
      parent, rb := Find(parent, rank, pair.value.1);
      SameRootsPassRight(done, mid, rank, parent);
      RootIsFixed(parent, rank, pair.value.0);
      RootIsFixed(parent, rank, pair.value.1);
      assert ra == Root(parent, rank, pair.value.0) && rb == Root(parent, rank, pair.value.1);
      if ra != rb {
        JoinKeeps(done, parent, rank, h, ra, rb);
        parent, rank := parent[ra := rb], JoinedRanks(parent, rank, ra, rb);
      } else {
        SkipKeeps(done, parent, rank, h);
      }
    } else {
      SkipKeeps(done, parent, rank, h);
    }
  }

  lemma PassIsForest(done: seq<BranchHyp>, parent: Parents, rank: Ranks)
    requires PassRight(done, parent, rank)
    ensures Forest(parent, rank)
  {
  }

  ghost predicate CoversEqualities(branches: seq<BranchHyp>, vars: seq<Name>) {
    forall i :: 0 <= i < |branches| && EqualityPair(branches[i]).Some? ==>
      EqualityPair(branches[i]).value.0 in vars && EqualityPair(branches[i]).value.1 in vars
  }

  /** The equality pass: each variable starts alone, each single-variable equality joins two
      classes. */
  method EqualityPass(branches: seq<BranchHyp>, vars: seq<Name>) returns (parent: Parents, ghost rank: Ranks)
    requires CoversEqualities(branches, vars)
    ensures PassRight(branches, parent, rank) && forall x :: x in parent <==> x in vars
  {
    hide PassRight, EqualityPair;
    parent, rank := Singletons(vars);
    var i := 0;
    while i < |branches|
      invariant i <= |branches|
      invariant PassRight(branches[..i], parent, rank) && forall x :: x in parent <==> x in vars
    {
      parent, rank := JoinOne(branches[..i], parent, rank, branches[i]);
      assert branches[..i + 1] == branches[..i] + [branches[i]];
      i := i + 1;
    }
    assert branches[..i] == branches;
  }

  method Singletons(vars: seq<Name>) returns (parent: Parents, ghost rank: Ranks)
    ensures PassRight([], parent, rank) && forall x :: x in parent <==> x in vars
  {
    hide Linked;
    parent, rank := map[], map[];
    var i := 0;
    while i < |vars|
      invariant i <= |vars|
      invariant parent.Keys == rank.Keys && forall x :: x in parent <==> x in vars[..i]
      invariant forall x :: x in parent ==> parent[x] == x
    {
      parent, rank := parent[vars[i] := vars[i]], rank[vars[i] := 0];
      i := i + 1;
    }
    forall x | x in parent
      ensures Linked([], x, Root(parent, rank, x))
    {
      LinkedRefl([], x);
    }
  }

  // ----- the classes -----

  type Classes = map<Name, seq<Name>>

  /** Some class lists both variables. */
  ghost predicate Together(classes: Classes, x: Name, y: Name) {
    exists r :: r in classes && x in classes[r] && y in classes[r]
  }

  /** After `n` variables, class `r` lists exactly those of them whose representative is `r`. */
  ghost predicate ClassesRight(classes: Classes, vars: seq<Name>, parent: Parents, rank: Ranks)
    requires Forest(parent, rank)
  {
    (forall r, x :: r in classes && x in classes[r] ==> x in vars && Root(parent, rank, x) == r)
    && (forall x :: x in vars ==> Root(parent, rank, x) in classes && x in classes[Root(parent, rank, x)])
  }

  /** The whole pass. Two variables end up in one class exactly when a chain of single-variable
      register equalities links them. */
  method EqualityClasses(branches: seq<BranchHyp>, vars: seq<Name>) returns (classes: Classes)
    requires CoversEqualities(branches, vars)
    ensures forall x, y :: x in vars && y in vars ==> (Together(classes, x, y) <==> Linked(branches, x, y))
    ensures forall r, x :: r in classes && x in classes[r] ==> x in vars
    ensures forall x :: x in vars ==> Together(classes, x, x)
    ensures forall r, s, x :: r in classes && s in classes && x in classes[r] && x in classes[s] ==> r == s
  {
    hide Linked, EqualityPair, Root, Together, PassRight, ClassesRight;
    var parent;
    ghost var rank;
    parent, rank := EqualityPass(branches, vars);
    PassIsForest(branches, parent, rank);
    classes := map[];
    NoClasses(parent, rank);
    var i := 0;
    while i < |vars|
      invariant i <= |vars|
      invariant Forest(parent, rank) && PassRight(branches, parent, rank) && forall x :: x in parent <==> x in vars
      invariant ClassesRight(classes, vars[..i], parent, rank)
    {
      ghost var was := parent;
      var r;
      parent, r := Find(parent, rank, vars[i]);
      assert parent.Keys == was.Keys;
      SameRootsPassRight(branches, was, rank, parent);
      SameRootsClasses(classes, vars[..i], was, parent, rank);
      classes := AddMember(classes, vars[..i], parent, rank, r, vars[i]);
      assert vars[..i + 1] == vars[..i] + [vars[i]];
      i := i + 1;
    }
    assert vars[..i] == vars;
    ClassesAreChains(branches, vars, classes, parent, rank);
  }

  lemma NoClasses(parent: Parents, rank: Ranks)
    requires Forest(parent, rank)
    ensures ClassesRight(map[], [], parent, rank)
  {
  }

  lemma SameRootsClasses(classes: Classes, vars: seq<Name>, parent: Parents, q: Parents, rank: Ranks)
    requires Forest(parent, rank) && Forest(q, rank) && SameRoots(q, parent, rank)
    requires ClassesRight(classes, vars, parent, rank)
    ensures ClassesRight(classes, vars, q, rank)
  {
    hide Root, Forest;
  }

  method AddMember(classes0: Classes, ghost vars: seq<Name>, ghost parent: Parents, ghost rank: Ranks, r: Name, x: Name)
    returns (classes: Classes)
    requires Forest(parent, rank) && ClassesRight(classes0, vars, parent, rank) && r == Root(parent, rank, x)
    ensures ClassesRight(classes, vars + [x], parent, rank)
  {
    hide Root;
    var members := if r in classes0 then classes0[r] else [];
    classes := classes0[r := members + [x]];
  }

  lemma ClassesAreChains(branches: seq<BranchHyp>, vars: seq<Name>, classes: Classes, parent: Parents, rank: Ranks)
    requires PassRight(branches, parent, rank) && ClassesRight(classes, vars, parent, rank)
    requires forall x :: x in parent <==> x in vars
    ensures forall x, y :: x in vars && y in vars ==> (Together(classes, x, y) <==> Linked(branches, x, y))
    ensures forall x :: x in vars ==> Together(classes, x, x)
    ensures forall r, x :: r in classes && x in classes[r] ==> x in vars
    ensures forall r, s, x :: r in classes && s in classes && x in classes[r] && x in classes[s] ==> r == s
  {
    hide Linked, Root, PassRight;
    PassIsForest(branches, parent, rank);
    forall r, s, x | r in classes && s in classes && x in classes[r] && x in classes[s]
      ensures r == s
    {
      assert Root(parent, rank, x) == r;
      assert Root(parent, rank, x) == s;
    }
    forall x, y | x in vars && y in vars
      ensures Together(classes, x, y) <==> Root(parent, rank, x) == Root(parent, rank, y)
      ensures Root(parent, rank, x) == Root(parent, rank, y) <==> Linked(branches, x, y)
    {
      SharedRootIffLinked(branches, parent, rank, x, y);
    }
  }
}
