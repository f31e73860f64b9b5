/** The repair of one class may break a hypothesis across classes: a path on which the greedy pass
    leaves `a < b` true and the repair of `a` makes it false. */
module BranchGaps {
  import opened Words
  import opened SymExpr
  import opened Branch
  import opened UnionFind
  import opened BranchWitness

  const A: Name := RegOld(2)
  const B: Name := RegOld(3)

  const AT_MOST_2: BranchHyp := BranchHyp(Imm64(Le), InitReg(A), None, 2, true)
  const NOT_2: BranchHyp := BranchHyp(Imm64(Ne), InitReg(A), None, 2, true)
  const NOT_0: BranchHyp := BranchHyp(Imm64(Ne), InitReg(A), None, 0, true)
  const LESS: BranchHyp := BranchHyp(Reg64(Lt), InitReg(A), Some(InitReg(B)), 0, true)

  const CROSS: seq<BranchHyp> := [AT_MOST_2, NOT_2, NOT_0, LESS]
  const CROSS_ORDER: seq<BranchHyp> := [AT_MOST_2, LESS, NOT_2, NOT_0]

  const FOUND: Env := map[A := 0, B := 1]
  const REPAIRED: Env := map[A := 1, B := 1]

  /** The assignment the search hands to the repair. */
  function Handed(branches: seq<BranchHyp>, vars: seq<Name>): Env {
    var order := Ordered(branches);
    ZeroFilled(GreedyEnv(order, Candidates, |order|), vars)
  }

  lemma {:induction false} OrderedStep(branches: seq<BranchHyp>, p: nat)
    requires |branches| > 0
    ensures WithPriority(branches, p)
            == (if Priority(branches[0]) == p then [branches[0]] else []) + WithPriority(branches[1..], p)
  {
  }

  lemma CrossPriority(p: nat)
    requires p < 4
    ensures WithPriority(CROSS, p) == if p == 2 then [AT_MOST_2, LESS] else if p == 3 then [NOT_2, NOT_0] else []
  {
    hide WithPriority;
    OrderedStep(CROSS, p);
    assert CROSS[1..] == [NOT_2, NOT_0, LESS];
    OrderedStep([NOT_2, NOT_0, LESS], p);
    assert [NOT_2, NOT_0, LESS][1..] == [NOT_0, LESS];
    OrderedStep([NOT_0, LESS], p);
    assert [NOT_0, LESS][1..] == [LESS];
    OrderedStep([LESS], p);
    assert [LESS][1..] == [];
    WithPriorityOfNone(p);
  }

  lemma WithPriorityOfNone(p: nat)
    ensures WithPriority([], p) == []
  {
  }

  lemma CrossOrdered()
    ensures Ordered(CROSS) == CROSS_ORDER
  {
    hide WithPriority;
    CrossPriority(0);
    CrossPriority(1);
    CrossPriority(2);
    CrossPriority(3);
  }

  lemma StepTakesZero()
    ensures GreedyStep(AT_MOST_2, Candidates, map[]) == map[A := 0]
  {
    assert Candidates(AT_MOST_2, map[])[0] == Only(0);
    assert Works(AT_MOST_2, Only(0), false, map[]);
  }

  lemma StepTakesOne()
    ensures GreedyStep(LESS, Candidates, map[A := 0]) == FOUND
  {
    assert Candidates(LESS, map[A := 0]) == [Both(0, 1)];
    assert Trial(LESS, Both(0, 1), false, map[A := 0]) == Solved(true, FOUND);
  }

  /** A bound variable cannot be steered away from its value. */
  lemma {:induction false} StepStuck(cands: seq<Candidate>)
    requires forall c :: c in cands ==> c.dst != 0 && c.src == None
    ensures Steered(NOT_0, cands, FOUND) == FOUND
  {
    if |cands| > 0 {
      assert !Works(NOT_0, cands[0], false, FOUND) && !Works(NOT_0, cands[0], true, FOUND);
      StepStuck(cands[1..]);
    }
  }

  lemma {:induction false} WithoutMeans(cs: seq<Candidate>, v: u64)
    ensures forall c :: c in Without(cs, v) ==> c.dst != v && c in cs
  {
    if |cs| > 0 {
      WithoutMeans(cs[1..], v);
    }
  }

  /** Every candidate for `a != 0` is another value than 0. */
  lemma OthersAreNotZero()
    ensures forall c :: c in Candidates(NOT_0, FOUND) ==> c.dst != 0 && c.src == None
  {
    var cs := [Only(1), Only(-1), Only(0), Only(1), Only(2), Only(3)];
    assert Candidates(NOT_0, FOUND) == OtherThan(0);
    hide Candidates, Without;
    assert OtherThan(0) == Without(cs, 0);
    WithoutMeans(cs, 0);
  }

  lemma ZeroStaysFalse()
    ensures !True(NOT_0, FOUND) && ZeroFilled(FOUND, BranchVars(NOT_0)) == FOUND
  {
    assert BranchVars(NOT_0) == [A];
  }

  lemma StepLeavesZero()
    ensures GreedyStep(NOT_0, Candidates, FOUND) == FOUND
  {
    hide Candidates, Steered, True, ZeroFilled, BranchVars;
    OthersAreNotZero();
    StepStuck(Candidates(NOT_0, FOUND));
    ZeroStaysFalse();
  }

  lemma CrossGreedy()
    ensures GreedyEnv(CROSS_ORDER, Candidates, 4) == FOUND
  {
    StepTakesZero();
    StepTakesOne();
    StepLeavesZero();
    assert GreedyStep(NOT_2, Candidates, FOUND) == FOUND;
    hide GreedyStep, Candidates;
    GreedyUnfolds(0);
    GreedyUnfolds(1);
    GreedyUnfolds(2);
    GreedyUnfolds(3);
    hide GreedyEnv;
  }

  lemma GreedyUnfolds(k: nat)
    requires k < 4
    ensures GreedyEnv(CROSS_ORDER, Candidates, 0) == map[]
    ensures GreedyEnv(CROSS_ORDER, Candidates, k + 1)
            == GreedyStep(CROSS_ORDER[k], Candidates, GreedyEnv(CROSS_ORDER, Candidates, k))
  {
    hide GreedyStep, Candidates;
  }

  lemma CrossHanded()
    ensures Handed(CROSS, [A, B]) == FOUND
  {
    hide GreedyEnv, Ordered, Candidates;
    CrossOrdered();
    CrossGreedy();
    assert ZeroFilled(FOUND, [A, B]) == FOUND;
  }

  lemma {:induction false} PoolStarts(branches: seq<BranchHyp>)
    ensures |Pool(branches)| >= 257 && Pool(branches)[0] == 0 && Pool(branches)[1] == 1
  {
    if |branches| > 0 {
      PoolStarts(branches[..|branches| - 1]);
    }
  }

  lemma CrossInternal(env: Env)
    requires A in env
    ensures InternalTrue(CROSS, [A], env) <==> env[A] == 1
  {
    assert BranchVars(LESS) == [A, B];
    assert BranchVars(AT_MOST_2) == [A] && BranchVars(NOT_2) == [A] && BranchVars(NOT_0) == [A];
    assert !Internal(LESS, [A]) by {
      assert B in BranchVars(LESS);
    }
    assert Internal(AT_MOST_2, [A]) && Internal(NOT_2, [A]) && Internal(NOT_0, [A]);
    hide Internal;
    assert True(AT_MOST_2, env) <==> env[A] <= 2;
    assert True(NOT_2, env) <==> env[A] != 2;
    assert True(NOT_0, env) <==> env[A] != 0;
    hide True;
    assert CROSS[0] == AT_MOST_2 && CROSS[1] == NOT_2 && CROSS[2] == NOT_0 && CROSS[3] == LESS;
  }

  lemma CrossCommits(pool: seq<u64>)
    requires |pool| > 1 && pool[0] == 0 && pool[1] == 1
    ensures Committed(CROSS, [A], pool, FOUND) == Some(1)
  {
    hide InternalTrue;
    CrossInternal(FOUND);
    CrossInternal(Uniform(FOUND, [A], 0));
    CrossInternal(Uniform(FOUND, [A], 1));
    var rest := pool[1..];
    assert rest[0] == 1;
    assert FirstShared(CROSS, [A], rest, FOUND) == Some(1);
    assert FirstShared(CROSS, [A], pool, FOUND) == FirstShared(CROSS, [A], rest, FOUND);
  }

  lemma CrossEquatesNone()
    ensures forall x, y :: !Equated(CROSS, x, y)
  {
    assert EqualityPair(AT_MOST_2).None? && EqualityPair(NOT_2).None? && EqualityPair(NOT_0).None? && EqualityPair(LESS).None?;
  }

  lemma CrossUnlinked(x: Name, y: Name)
    requires Linked(CROSS, x, y)
    ensures x == y
  {
    var p :| Chain(CROSS, p) && p[0] == x && p[|p| - 1] == y;
    CrossEquatesNone();
    var next := if |p| > 1 then 1 else 0;
    assert !Equated(CROSS, p[0], p[next]);
  }

  /** No equality links the two variables, so each is a class of its own. The greedy pass leaves
      `a = 0, b = 1`, where `a < b` is true; the repair commits `a := 1` for `a`'s class, where it
      is false. */
  lemma CrossClassMayBreak()
    ensures forall x, y :: Linked(CROSS, x, y) ==> x == y
    ensures Handed(CROSS, [A, B]) == FOUND && True(LESS, FOUND)
    ensures Committed(CROSS, [A], Pool(CROSS), FOUND) == Some(1)
    ensures Repaired(CROSS, [A], Pool(CROSS), FOUND) == REPAIRED && !True(LESS, REPAIRED)
  {
    hide GreedyEnv, Handed, Linked, Pool, Committed;
    forall x, y | Linked(CROSS, x, y)
      ensures x == y
    {
      CrossUnlinked(x, y);
    }
    CrossHanded();
    PoolStarts(CROSS);
    CrossCommits(Pool(CROSS));
    assert Uniform(FOUND, [A], 1) == REPAIRED;
  }

  const SINGLE: seq<BranchHyp> := [AT_MOST_2, NOT_2, NOT_0]

  lemma SingleVars(i: nat)
    requires i < |SINGLE|
    ensures A in AllVars(SINGLE) && BranchVars(SINGLE[i]) == [A]
  {
    assert BranchVars(AT_MOST_2) == [A] && BranchVars(NOT_2) == [A] && BranchVars(NOT_0) == [A];
    assert SINGLE[i] == AT_MOST_2 || SINGLE[i] == NOT_2 || SINGLE[i] == NOT_0;
    hide BranchVars, AllVars;
    AllVarsCover(SINGLE, 0);
  }

  lemma SingleInClass(i: nat)
    requires i < |SINGLE|
    ensures A in AllVars(SINGLE) && ClassHyp(SINGLE, A, SINGLE[i])
  {
    hide AllVars, Linked, BranchVars;
    LinkedRefl(SINGLE, A);
    SingleVars(i);
  }

  lemma SingleFixable()
    ensures ClassFixable(SINGLE, A)
  {
    hide Pool, SharedWorks, NearAny;
    PoolIff(SINGLE, 1);
    SingleShared();
  }

  /** The same hypotheses without the coupling one are satisfied class by class, so the search always
      finds their only solution. */
  lemma SingleIsClassByClass()
    ensures ClassByClass(SINGLE)
  {
    hide AllVars, ClassHyp, ClassFixable;
    SingleFixable();
    forall i | 0 <= i < |SINGLE|
      ensures OfFixableClass(SINGLE, SINGLE[i])
    {
      SingleInClass(i);
    }
  }

  lemma SingleShared()
    ensures SharedWorks(SINGLE, A, 1)
  {
    assert BranchVars(AT_MOST_2) == [A] && BranchVars(NOT_2) == [A] && BranchVars(NOT_0) == [A];
    var env := Uniform(map[], [A], 1);
    assert A in env && env[A] == 1;
    assert True(AT_MOST_2, env) && True(NOT_2, env) && True(NOT_0, env);
    hide ClassHyp, True, Uniform, BranchVars;
    forall i | 0 <= i < |SINGLE|
      ensures True(SINGLE[i], Uniform(map[], BranchVars(SINGLE[i]), 1))
    {
      assert SINGLE[i] == AT_MOST_2 || SINGLE[i] == NOT_2 || SINGLE[i] == NOT_0;
    }
  }
}
