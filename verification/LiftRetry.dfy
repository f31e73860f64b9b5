/** The retry loop of the walker: which regions a pass asks to have demoted to bytes, how they are
    merged into the plan, and what the next pass gains. */
module LiftRetry {
  import opened Words
  import opened Alu
  import opened SymExpr
  import opened SymModel
  import opened Branch
  import opened LiftSound
  import opened Lift
  import opened LiftRecords

  // ----- one request -----

  /** The region holds the access and every cell that clashes with it. */
  ghost predicate Encloses(g: Region, mem: seq<MemCell>, n: nat, root: Root, lo: int, w: Width)
    requires n <= |mem|
  {
    g.root == root && g.lo <= lo && lo + Len(w) <= g.hi
    && forall i :: 0 <= i < n && Clashes(mem[i], root, lo, w) ==>
         g.lo <= CellDisp(mem[i]) && CellDisp(mem[i]) + Len(mem[i].width) <= g.hi
  }

  lemma {:induction false} HullEncloses(mem: seq<MemCell>, n: nat, root: Root, lo: int, w: Width)
    requires n <= |mem|
    ensures Encloses(ClashHull(mem, n, root, lo, w), mem, n, root, lo, w)
  {
    hide Clashes, CellDisp;
    if n > 0 {
      HullEncloses(mem, n - 1, root, lo, w);
      var hull, inner := ClashHull(mem, n, root, lo, w), ClashHull(mem, n - 1, root, lo, w);
      forall i | 0 <= i < n && Clashes(mem[i], root, lo, w)
        ensures hull.lo <= CellDisp(mem[i]) && CellDisp(mem[i]) + Len(mem[i].width) <= hull.hi
      {
        assert i < n - 1 ==> inner.lo <= CellDisp(mem[i]) && CellDisp(mem[i]) + Len(mem[i].width) <= inner.hi;
      }
    }
  }

  lemma {:induction false} HullInside(mem: seq<MemCell>, n: nat, root: Root, lo: int, w: Width, g: Region)
    requires n <= |mem| && Encloses(g, mem, n, root, lo, w)
    ensures var hull := ClashHull(mem, n, root, lo, w); g.lo <= hull.lo && hull.hi <= g.hi
  {
    hide Clashes, CellDisp;
    if n > 0 {
      HullInside(mem, n - 1, root, lo, w, g);
    }
  }

  /** The requested region is the least one that holds the access and every clashing cell. */
  lemma HullIsLeast(mem: seq<MemCell>, root: Root, lo: int, w: Width)
    ensures Encloses(ClashHull(mem, |mem|, root, lo, w), mem, |mem|, root, lo, w)
    ensures forall g :: Encloses(g, mem, |mem|, root, lo, w) ==>
              var hull := ClashHull(mem, |mem|, root, lo, w); g.lo <= hull.lo && hull.hi <= g.hi
  {
    hide Encloses, ClashHull;
    HullEncloses(mem, |mem|, root, lo, w);
    forall g | Encloses(g, mem, |mem|, root, lo, w)
      ensures var hull := ClashHull(mem, |mem|, root, lo, w); g.lo <= hull.lo && hull.hi <= g.hi
    {
      HullInside(mem, |mem|, root, lo, w, g);
    }
  }

  /** A wide access needs no request: it is served by bytes, or it clashes with no cell of its root
      and meets no byte-granular region. */
  predicate Settled(s: Sym, t: Touch) {
    var a := CanonAddr(t.base, t.off);
    t.width.Byte? || ByBytes(s, t)
    || (!AnyClash(s.mem, a.root, a.disp, t.width) && !HotIntersects(s.hot, a.root, a.disp, a.disp + Len(t.width)))
  }

  function HullOf(s: Sym, t: Touch): Region {
    var a := CanonAddr(t.base, t.off);
    ClashHull(s.mem, |s.mem|, a.root, a.disp, t.width)
  }

  /** What is asked between two states: nothing if the access is settled, else only its hull. */
  ghost predicate Asks(s: Sym, s': Sym, settled: bool, hull: Region) {
    s.newHot <= s'.newHot && s'.hot == s.hot
    && (if settled then s'.newHot == s.newHot
        else |s'.newHot| > |s.newHot| && forall i :: |s.newHot| <= i < |s'.newHot| ==> s'.newHot[i] == hull)
  }

  lemma ReadHotWideAsks(s: Sym, base: Expr, off: Off, w: Width)
    ensures var s' := ReadHotWide(s, base, off, w).0; s'.newHot == s.newHot && s'.hot == s.hot
  {
    hide HotLoadSlots;
    HotSlotsWalk(s, base, off, 0, 0);
  }

  lemma ReadMemAtAsks(s: Sym, t: Touch)
    ensures Asks(s, ReadMemAt(s, t.base, t.off, t.width).0, Settled(s, t), HullOf(s, t))
  {
    hide LoadCell, ReadHotWide, HotCovers, HotIntersects, AnyClash, ClashHull, PlanSplit, CanonAddr;
    var Touch(base, off, w, _) := t;
    var s' := ReadMemAt(s, base, off, w).0;
    if w.Byte? {
      assert s' == LoadCell(s, base, off, w).0;
      LoadCellWalk(s, base, off, w);
    } else {
      var a := CanonAddr(base, off);
      PlansKeep(s, a.root, a.disp, w);
      var s1 := if w.Dword? then PlanSplit(s, a.root, a.disp) else s;
      if HotCovers(s1.hot, a.root, a.disp, a.disp + Len(w)) {
        assert s' == ReadHotWide(s1, base, off, w).0;
        ReadHotWideAsks(s1, base, off, w);
      } else {
        var s2 := RequestDemotion(s1, a.root, a.disp, w);
        assert s' == LoadCell(s2, base, off, w).0;
        LoadCellWalk(s2, base, off, w);
      }
    }
  }

  /** A store outside byte-granular regions asks at most what the load of its cell asks. */
  lemma StoreCellAsks(s: Sym, t: Touch, e: Expr)
    ensures var s' := StoreCell(s, t.base, t.off, t.width, e);
            s'.hot == s.hot && (s'.newHot == s.newHot || Asks(s, s', Settled(s, t), HullOf(s, t)))
  {
    hide Lookup, ReadMemAt, Settled, HullOf;
    ReadMemAtAsks(s, t);
  }

  lemma AsksTwice(s: Sym, s1: Sym, s2: Sym, hull: Region)
    requires s1 == s.(newHot := s.newHot + [hull]) && s2.hot == s1.hot
    requires s2.newHot == s1.newHot || Asks(s1, s2, false, hull)
    ensures Asks(s, s2, false, hull)
  {
  }

  lemma StoreColdAsks(s: Sym, t: Touch, e: Expr)
    requires !t.width.Byte? && !ByBytes(s, t)
    ensures Asks(s, StoreCold(s, CanonAddr(t.base, t.off), t.base, t.off, t.width, e), Settled(s, t), HullOf(s, t))
  {
    hide StoreCell, HotCovers, HotIntersects, AnyClash, ClashHull, CanonAddr;
    var a := CanonAddr(t.base, t.off);
    var s1 := RequestDemotion(s, a.root, a.disp, t.width);
    assert HullOf(s1, t) == HullOf(s, t) && Settled(s1, t) == Settled(s, t);
    StoreCellAsks(s1, t, e);
    hide HullOf;
    if !Settled(s, t) {
      hide Settled;
      AsksTwice(s, s1, StoreCold(s, a, t.base, t.off, t.width, e), HullOf(s, t));
    }
  }

  lemma WriteMemAtAsks(s: Sym, t: Touch, e: Expr)
    ensures Asks(s, WriteMemAt(s, t.base, t.off, t.width, e), Settled(s, t), HullOf(s, t))
  {
    hide StoreCell, StoreHot, StoreCold, HotCovers, CanonAddr, AnyClash, HotIntersects, ClashHull;
    var Touch(base, off, w, _) := t;
    var a := CanonAddr(base, off);
    var s' := WriteMemAt(s, base, off, w, e);
    if w.Byte? {
      assert s' == StoreCell(s, base, off, w, e);
      StoreCellAsks(s, t, e);
    } else if HotCovers(s.hot, a.root, a.disp, a.disp + Len(w)) {
      assert s' == StoreHot(s, base, off, w, e);
      StoreHotAsks(s, base, off, w, e);
    } else {
      assert s' == StoreCold(s, a, base, off, w, e);
      StoreColdAsks(s, t, e);
    }
  }

  lemma StoreHotAsks(s: Sym, base: Expr, off: Off, w: Width, e: Expr)
    ensures var s' := StoreHot(s, base, off, w, e); s'.newHot == s.newHot && s'.hot == s.hot
  {
    hide HotStoreSlots;
    if e.StImm? {
      HotSlotsWalk(s, base, off, e.imm, 0);
    }
  }

  // ----- the requests of a path -----

  /** `Settled` and `HullOf` look at cells and plan only. */
  lemma SameNeeds(s: Sym, s': Sym, t: Touch)
    requires s'.mem == s.mem && s'.hot == s.hot
    ensures Settled(s', t) == Settled(s, t) && HullOf(s', t) == HullOf(s, t)
  {
  }

  lemma LoadAsks(insn: Insn, st: State)
    requires insn.Ldx?
    ensures var t := Touched(insn, st.s).value;
            Asks(st.s, SymStep(insn, st).s, Settled(st.s, t), HullOf(st.s, t))
  {
    hide ReadReg, ReadMemAt, WriteReg, ReloadHyps, Settled, HullOf;
    var Ldx(w, dst, src, off) := insn;
    var (s1, base) := ReadReg(st.s, src);
    var t := Touch(base, off, w, false);
    RegRecords(st.s, src, base);
    SameNeeds(st.s, s1, t);
    ReadMemAtAsks(s1, t);
    var (s2, raw) := ReadMemAt(s1, base, off, w);
    RegRecords(s2, dst, StoredReg(w, raw));
  }

  lemma StoreAsks(insn: Insn, st: State)
    requires insn.Stx? || insn.StoreImm?
    ensures var t := Touched(insn, st.s).value;
            Asks(st.s, SymStep(insn, st).s, Settled(st.s, t), HullOf(st.s, t))
  {
    hide ReadReg, WriteMemAt, StoredReg, StoredImm, Settled, HullOf;
    var s1 := if insn.Stx? then ReadReg(st.s, insn.src).0 else st.s;
    var e := if insn.Stx? then StoredReg(insn.w, ReadReg(st.s, insn.src).1) else StoredImm(insn.w, insn.imm);
    if insn.Stx? {
      RegRecords(st.s, insn.src, Const(0));
    }
    var (s2, base) := ReadReg(s1, insn.dst);
    var t := Touch(base, insn.off, insn.w, true);
    RegRecords(s1, insn.dst, base);
    SameNeeds(st.s, s2, t);
    WriteMemAtAsks(s2, t, e);
    assert SymStep(insn, st).s == WriteMemAt(s2, base, insn.off, insn.w, e);
  }

  /** The instruction makes an access that is not settled. */
  predicate Unsettled(insn: Insn, s: Sym) {
    Touched(insn, s).Some? && !Settled(s, Touched(insn, s).value)
  }

  function HullAt(insn: Insn, s: Sym): Region
    requires Touched(insn, s).Some?
  {
    HullOf(s, Touched(insn, s).value)
  }

  lemma StepAsks(insn: Insn, st: State)
    ensures var s' := SymStep(insn, st).s;
            st.s.newHot <= s'.newHot && s'.hot == st.s.hot
            && (s'.newHot == st.s.newHot <==> !Unsettled(insn, st.s))
            && forall g :: g in s'.newHot <==> g in st.s.newHot || (Unsettled(insn, st.s) && g == HullAt(insn, st.s))
  {
    hide SymStep, Settled, HullOf, ReadReg;
    var s' := SymStep(insn, st).s;
    var t := Touched(insn, st.s);
    if t.None? {
      QuietRecords(insn, st);
    } else {
      if insn.Ldx? {
        LoadAsks(insn, st);
      } else {
        StoreAsks(insn, st);
      }
      AsksMeans(st.s, s', Settled(st.s, t.value), HullOf(st.s, t.value));
    }
  }

  lemma AsksMeans(s: Sym, s': Sym, settled: bool, hull: Region)
    requires Asks(s, s', settled, hull)
    ensures s'.newHot == s.newHot <==> settled
    ensures forall g :: g in s'.newHot <==> g in s.newHot || (!settled && g == hull)
  {
    if !settled {
      var more := s'.newHot[|s.newHot|..];
      assert s'.newHot == s.newHot + more && more[0] == hull;
      assert forall g :: g in more ==> g == hull;
    }
  }

  predicate RunSettled(prog: seq<Insn>, st: State) {
    |prog| > 0 ==> !Unsettled(prog[0], st.s) && RunSettled(prog[1..], SymStep(prog[0], st))
  }

  /** Some access of the path is not settled, and this is its hull. */
  ghost predicate Requested(prog: seq<Insn>, st: State, g: Region) {
    |prog| > 0
    && ((Unsettled(prog[0], st.s) && g == HullAt(prog[0], st.s))
        || Requested(prog[1..], SymStep(prog[0], st), g))
  }

  lemma {:induction false} RequestsIff(prog: seq<Insn>, st: State)
    ensures forall g :: g in SymRun(prog, st).s.newHot <==> g in st.s.newHot || Requested(prog, st, g)
    ensures st.s.newHot <= SymRun(prog, st).s.newHot
    ensures SymRun(prog, st).s.newHot == st.s.newHot <==> RunSettled(prog, st)
    ensures SymRun(prog, st).s.hot == st.s.hot
  {
    hide SymStep, Unsettled, HullAt;
    if |prog| > 0 {
      StepAsks(prog[0], st);
      RequestsIff(prog[1..], SymStep(prog[0], st));
    }
  }

  /** A pass asks for exactly the hulls of its unsettled accesses. It asks for nothing if and only
      if every wide access is served by bytes, or clashes with no cell of its root and meets no
      byte-granular region; so this holds on every finished path. */
  lemma PassRequestsIff(prog: seq<Insn>, hot: seq<Region>, splits: map<(Root, int), int>)
    ensures var s := SymRun(prog, Start(hot, splits)).s;
            (forall g :: g in s.newHot <==> Requested(prog, Start(hot, splits), g))
            && (s.newHot == [] <==> RunSettled(prog, Start(hot, splits)))
            && (RetryPlanOf(s) == Ready ==> RunSettled(prog, Start(hot, splits)))
  {
    hide SymRun, Requested, RunSettled;
    RequestsIff(prog, Start(hot, splits));
  }

  // ----- merging the requests into the plan -----

  predicate Touches(r: Region, g: Region) {
    r.root == g.root && r.lo <= g.hi && g.lo <= r.hi
  }

  function Joined(g: Region, r: Region): Region {
    Region(g.root, if r.lo < g.lo then r.lo else g.lo, if r.hi > g.hi then r.hi else g.hi)
  }

  /** The regions kept and the grown region, when `g` swallows whatever touches it, in order. */
  function Swallow(rs: seq<Region>, g: Region): (seq<Region>, Region) {
    if |rs| == 0 then ([], g)
    else
      var (kept, grown) := Swallow(rs[..|rs| - 1], g);
      var r := rs[|rs| - 1];
      if Touches(r, grown) then (kept, Joined(grown, r)) else (kept + [r], grown)
  }

  function Merged(hot: seq<Region>, g: Region): seq<Region> {
    var (kept, grown) := Swallow(hot, g);
    kept + [grown]
  }

  function MergedAll(hot: seq<Region>, more: seq<Region>): seq<Region> {
    if |more| == 0 then hot else Merged(MergedAll(hot, more[..|more| - 1]), more[|more| - 1])
  }

  /** `merge_hot_regions`. */
  method MergeHotRegions(hot: seq<Region>, more: seq<Region>) returns (merged: seq<Region>)
    ensures merged == MergedAll(hot, more)
  {
    hide Swallow, Touches, Joined;
    merged := hot;
    var i := 0;
    while i < |more|
      invariant i <= |more| && merged == MergedAll(hot, more[..i])
    {
      assert more[..i + 1][..i] == more[..i];
      var kept, grown := Retain(merged, more[i]);
      merged := kept + [grown];
      i := i + 1;
    }
    assert more[..i] == more;
  }

  method Retain(rs: seq<Region>, g: Region) returns (kept: seq<Region>, grown: Region)
    ensures (kept, grown) == Swallow(rs, g)
  {
    hide Touches, Joined;
    kept, grown := [], g;
    var i := 0;
    while i < |rs|
      invariant i <= |rs| && (kept, grown) == Swallow(rs[..i], g)
    {
      assert rs[..i + 1][..i] == rs[..i];
      if Touches(rs[i], grown) {
        grown := Joined(grown, rs[i]);
      } else {
        kept := kept + [rs[i]];
      }
      i := i + 1;
    }
    assert rs[..i] == rs;
  }

  predicate Has(g: Region, root: Root, x: int) {
    g.root == root && g.lo <= x < g.hi
  }

  /** The byte lies in the plan. */
  predicate InPlan(hot: seq<Region>, root: Root, x: int) {
    exists i | 0 <= i < |hot| :: Has(hot[i], root, x)
  }

  /** Regions are not empty, and no two touch. */
  predicate Spread(hot: seq<Region>) {
    (forall i :: 0 <= i < |hot| ==> hot[i].lo < hot[i].hi)
    && forall i, j :: 0 <= i < j < |hot| ==> !Touches(hot[i], hot[j])
  }

  lemma JoinedHas(g: Region, r: Region, root: Root, x: int)
    requires Touches(r, g) && g.lo < g.hi && r.lo < r.hi
    ensures Has(Joined(g, r), root, x) <==> Has(g, root, x) || Has(r, root, x)
  {
  }

  lemma JoinedTouches(k: Region, g: Region, r: Region)
    requires Touches(r, g) && g.lo < g.hi && r.lo < r.hi && k.lo < k.hi && !Touches(k, g) && !Touches(k, r)
    ensures !Touches(k, Joined(g, r))
  {
  }

  /** What is kept comes from the plan and touches neither itself nor the grown region. */
  lemma {:induction false} SwallowKeeps(rs: seq<Region>, g: Region)
    requires Spread(rs) && g.lo < g.hi
    ensures var (kept, grown) := Swallow(rs, g);
            grown.root == g.root && grown.lo < grown.hi && Spread(kept)
            && forall i :: 0 <= i < |kept| ==> kept[i] in rs && !Touches(kept[i], grown)
  {
    if |rs| > 0 {
      var init, r := rs[..|rs| - 1], rs[|rs| - 1];
      SwallowKeeps(init, g);
      var (kept, grown) := Swallow(init, g);
      hide Swallow, Joined;
      forall i | 0 <= i < |kept|
        ensures kept[i] in rs && !Touches(kept[i], r)
        ensures Touches(r, grown) ==> !Touches(kept[i], Joined(grown, r))
      {
        var j :| 0 <= j < |init| && init[j] == kept[i];
        assert rs[j] == kept[i];
        assert !Touches(rs[j], rs[|rs| - 1]);
        if Touches(r, grown) {
          JoinedTouches(kept[i], grown, r);
        }
      }
      SwallowStep(rs, g);
      JoinedShape(grown, r);
      hide Touches;
    }
  }

  lemma JoinedShape(g: Region, r: Region)
    ensures Joined(g, r).root == g.root && Joined(g, r).lo <= g.lo && g.hi <= Joined(g, r).hi
  {
  }

  lemma SwallowStep(rs: seq<Region>, g: Region)
    requires |rs| > 0
    ensures var (kept, grown) := Swallow(rs[..|rs| - 1], g);
            var r := rs[|rs| - 1];
            Swallow(rs, g) == if Touches(r, grown) then (kept, Joined(grown, r)) else (kept + [r], grown)
  {
  }

  lemma InPlanAppend(hot: seq<Region>, g: Region, root: Root, x: int)
    ensures InPlan(hot + [g], root, x) <==> InPlan(hot, root, x) || Has(g, root, x)
  {
    hide Has;
    if InPlan(hot, root, x) {
      var i :| 0 <= i < |hot| && Has(hot[i], root, x);
      assert (hot + [g])[i] == hot[i];
    }
    assert (hot + [g])[|hot|] == g;
  }

  lemma {:induction false} SwallowBytes(rs: seq<Region>, g: Region, root: Root, x: int)
    requires Spread(rs) && g.lo < g.hi
    ensures var (kept, grown) := Swallow(rs, g);
            InPlan(kept, root, x) || Has(grown, root, x) <==> InPlan(rs, root, x) || Has(g, root, x)
  {
    if |rs| > 0 {
      var init, r := rs[..|rs| - 1], rs[|rs| - 1];
      SwallowBytes(init, g, root, x);
      SwallowKeeps(init, g);
      SwallowStep(rs, g);
      var (kept, grown) := Swallow(init, g);
      assert rs == init + [r];
      InPlanAppend(init, r, root, x);
      InPlanAppend(kept, r, root, x);
      if Touches(r, grown) {
        JoinedHas(grown, r, root, x);
      }
      hide Swallow, Has, InPlan, Touches, Joined;
    }
  }

  /** Merging a region into a plan keeps its regions apart, and the plan's bytes become exactly the
      old ones and the region's. */
  lemma MergedUnion(hot: seq<Region>, g: Region)
    requires Spread(hot) && g.lo < g.hi
    ensures Spread(Merged(hot, g))
    ensures forall root, x :: InPlan(Merged(hot, g), root, x) <==> InPlan(hot, root, x) || Has(g, root, x)
  {
    hide Swallow, Touches, InPlan, Has;
    SwallowKeeps(hot, g);
    var (kept, grown) := Swallow(hot, g);
    forall root, x
      ensures InPlan(Merged(hot, g), root, x) <==> InPlan(hot, root, x) || Has(g, root, x)
    {
      SwallowBytes(hot, g, root, x);
      InPlanAppend(kept, grown, root, x);
    }
  }

  lemma {:induction false} MergedAllUnion(hot: seq<Region>, more: seq<Region>)
    requires Spread(hot) && forall i :: 0 <= i < |more| ==> more[i].lo < more[i].hi
    ensures Spread(MergedAll(hot, more))
    ensures forall root, x :: InPlan(MergedAll(hot, more), root, x) <==> InPlan(hot, root, x) || InPlan(more, root, x)
  {
    hide Merged, Spread, InPlan;
    if |more| == 0 {
      forall root, x
        ensures !InPlan([], root, x)
      {
        NothingInPlan(root, x);
      }
    } else {
      var init, g := more[..|more| - 1], more[|more| - 1];
      MergedAllUnion(hot, init);
      MergedUnion(MergedAll(hot, init), g);
      assert more == init + [g];
      forall root, x
        ensures InPlan(more, root, x) <==> InPlan(init, root, x) || Has(g, root, x)
      {
        InPlanAppend(init, g, root, x);
      }
    }
  }

  lemma NothingInPlan(root: Root, x: int)
    ensures !InPlan([], root, x)
  {
  }

  /** In a spread plan one region covers an interval if and only if every byte lies in the plan. */
  lemma CoversIffBytes(hot: seq<Region>, root: Root, lo: int, hi: int)
    requires Spread(hot) && lo < hi
    ensures HotCovers(hot, root, lo, hi) <==> forall x :: lo <= x < hi ==> InPlan(hot, root, x)
  {
    if HotCovers(hot, root, lo, hi) {
      var i :| 0 <= i < |hot| && Covers(hot[i], root, lo, hi);
      forall x | lo <= x < hi
        ensures InPlan(hot, root, x)
      {
        assert Has(hot[i], root, x);
      }
    }
    if forall x :: lo <= x < hi ==> InPlan(hot, root, x) {
      assert InPlan(hot, root, lo);
      var i :| 0 <= i < |hot| && Has(hot[i], root, lo);
      if hi <= hot[i].hi {
        assert Covers(hot[i], root, lo, hi);
      } else {
        assert InPlan(hot, root, hot[i].hi);
        var j :| 0 <= j < |hot| && Has(hot[j], root, hot[i].hi);
        ApartEitherWay(hot, i, j);
      }
    }
  }

  lemma ApartEitherWay(hot: seq<Region>, i: nat, j: nat)
    requires Spread(hot) && i < |hot| && j < |hot|
    ensures i != j ==> !Touches(hot[i], hot[j])
  {
    assert j < i ==> !Touches(hot[j], hot[i]);
  }

  lemma CoversLess(hot: seq<Region>, root: Root, lo: int, hi: int, lo': int, hi': int)
    requires lo <= lo' && hi' <= hi
    ensures HotCovers(hot, root, lo, hi) ==> HotCovers(hot, root, lo', hi')
  {
    if HotCovers(hot, root, lo, hi) {
      var i :| 0 <= i < |hot| && Covers(hot[i], root, lo, hi);
      assert Covers(hot[i], root, lo', hi');
    }
  }

  /** An interval meets the plan if and only if one of its bytes lies in it. */
  lemma IntersectsIffByte(hot: seq<Region>, root: Root, lo: int, hi: int)
    requires Spread(hot) && lo < hi
    ensures HotIntersects(hot, root, lo, hi) <==> exists x :: lo <= x < hi && InPlan(hot, root, x)
  {
    if HotIntersects(hot, root, lo, hi) {
      var i :| 0 <= i < |hot| && Meets(hot[i], root, lo, hi);
      var x := if lo < hot[i].lo then hot[i].lo else lo;
      assert Has(hot[i], root, x);
      assert InPlan(hot, root, x);
    }
    if exists x :: lo <= x < hi && InPlan(hot, root, x) {
      var x :| lo <= x < hi && InPlan(hot, root, x);
      var i :| 0 <= i < |hot| && Has(hot[i], root, x);
      assert Meets(hot[i], root, lo, hi);
    }
  }

  // ----- splits of blobs -----

  /** The eight bytes at `lo` are the last eight of the blob. */
  predicate IsTail(b: Blob, root: Root, lo: int) {
    b.root == root && lo + 8 == b.lo + b.len && b.len >= 8
  }

  /** Blobs do not overlap. */
  predicate BlobsApart(blobs: seq<Blob>) {
    forall i, j :: 0 <= i < j < |blobs| && blobs[i].root == blobs[j].root ==>
      blobs[i].lo + blobs[i].len <= blobs[j].lo || blobs[j].lo + blobs[j].len <= blobs[i].lo
  }

  /** A dword read asks for a split exactly when it reads the tail of a blob not yet split, and asks
      for the one that makes these bytes a cell of their own. */
  lemma SplitIff(s: Sym, root: Root, lo: int)
    requires BlobsApart(s.blobs)
    ensures var s' := PlanSplit(s, root, lo);
            (forall i :: 0 <= i < |s.blobs| && IsTail(s.blobs[i], root, lo) && (root, s.blobs[i].lo) !in s.splits ==>
                           s'.newSplits == s.newSplits + [(root, s.blobs[i].lo, lo - s.blobs[i].lo)])
            && ((forall i :: 0 <= i < |s.blobs| && IsTail(s.blobs[i], root, lo) ==> (root, s.blobs[i].lo) in s.splits) ==>
                  s'.newSplits == s.newSplits)
  {
    var f := Position(s.blobs, b => HoldsBlob(b, root, lo));
    hide Position;
    forall i | 0 <= i < |s.blobs| && IsTail(s.blobs[i], root, lo)
      ensures f == Some(i)
    {
      assert HoldsBlob(s.blobs[i], root, lo);
      assert f.Some? && f.value <= i && HoldsBlob(s.blobs[f.value], root, lo);
    }
    if f.Some? {
      assert HoldsBlob(s.blobs[f.value], root, lo);
    }
  }

  // ----- what the next pass gains -----

  /** The access and every cell it clashed with lie inside one region of the plan. */
  ghost predicate Served(plan: seq<Region>, s: Sym, t: Touch) {
    var a := CanonAddr(t.base, t.off);
    HotCovers(plan, a.root, a.disp, a.disp + Len(t.width))
    && forall i :: 0 <= i < |s.mem| && Clashes(s.mem[i], a.root, a.disp, t.width) ==>
         HotCovers(plan, a.root, CellDisp(s.mem[i]), CellDisp(s.mem[i]) + Len(s.mem[i].width))
  }

  lemma RequestServed(plan: seq<Region>, s: Sym, t: Touch)
    requires var g := HullOf(s, t); HotCovers(plan, g.root, g.lo, g.hi)
    ensures Served(plan, s, t)
  {
    hide CanonAddr, Clashes, CellDisp, ClashHull, HotCovers;
    var a := CanonAddr(t.base, t.off);
    var g := HullOf(s, t);
    HullEncloses(s.mem, |s.mem|, a.root, a.disp, t.width);
    CoversLess(plan, g.root, g.lo, g.hi, a.disp, a.disp + Len(t.width));
    forall k | 0 <= k < |s.mem| && Clashes(s.mem[k], a.root, a.disp, t.width)
      ensures HotCovers(plan, a.root, CellDisp(s.mem[k]), CellDisp(s.mem[k]) + Len(s.mem[k].width))
    {
      CoversLess(plan, g.root, g.lo, g.hi, CellDisp(s.mem[k]), CellDisp(s.mem[k]) + Len(s.mem[k].width));
    }
  }

  /** Every access of the path that was not settled is served by the plan. */
  ghost predicate AllServed(prog: seq<Insn>, st: State, plan: seq<Region>) {
    |prog| > 0 ==>
      (Unsettled(prog[0], st.s) ==> Served(plan, st.s, Touched(prog[0], st.s).value))
      && AllServed(prog[1..], SymStep(prog[0], st), plan)
  }

  lemma {:induction false} RequestsServed(prog: seq<Insn>, st: State, plan: seq<Region>)
    requires forall g :: Requested(prog, st, g) ==> HotCovers(plan, g.root, g.lo, g.hi)
    ensures AllServed(prog, st, plan)
  {
    hide SymStep, HotCovers, Served;
    if |prog| > 0 {
      forall g | Requested(prog[1..], SymStep(prog[0], st), g)
        ensures HotCovers(plan, g.root, g.lo, g.hi)
      {
        assert Requested(prog, st, g);
      }
      RequestsServed(prog[1..], SymStep(prog[0], st), plan);
      if Unsettled(prog[0], st.s) {
        assert Requested(prog, st, HullAt(prog[0], st.s));
        RequestServed(plan, st.s, Touched(prog[0], st.s).value);
      }
    }
  }

  /** A request is not empty, and the plan of its pass does not hold all its bytes. */
  lemma {:induction false} RequestIsNew(prog: seq<Insn>, st: State, g: Region)
    requires Requested(prog, st, g)
    ensures g.lo < g.hi && !HotCovers(st.s.hot, g.root, g.lo, g.hi)
  {
    hide SymStep, HotCovers;
    StepAsks(prog[0], st);
    if Unsettled(prog[0], st.s) && g == HullAt(prog[0], st.s) {
      HullIsNew(st.s, Touched(prog[0], st.s).value);
    } else {
      RequestIsNew(prog[1..], SymStep(prog[0], st), g);
    }
  }

  lemma HullIsNew(s: Sym, t: Touch)
    requires !Settled(s, t)
    ensures var g := HullOf(s, t); g.lo < g.hi && !HotCovers(s.hot, g.root, g.lo, g.hi)
  {
    hide CanonAddr, ClashHull, Clashes;
    var a, g := CanonAddr(t.base, t.off), HullOf(s, t);
    HullEncloses(s.mem, |s.mem|, a.root, a.disp, t.width);
    CoversLess(s.hot, g.root, g.lo, g.hi, a.disp, a.disp + Len(t.width));
  }

  /** A retry makes progress. The merged plan keeps every byte of the old one and its regions stay
      apart; it holds exactly the requested bytes besides, at least one of them new; and every
      access that was not settled, together with each cell it clashed with, now lies inside one
      region, so that the next pass serves it by bytes. */
  lemma RetryGains(prog: seq<Insn>, hot: seq<Region>, splits: map<(Root, int), int>)
    requires Spread(hot) && SymRun(prog, Start(hot, splits)).s.newHot != []
    ensures var more := SymRun(prog, Start(hot, splits)).s.newHot;
            var plan := MergedAll(hot, more);
            Spread(plan) && AllServed(prog, Start(hot, splits), plan)
            && (forall root, x :: InPlan(plan, root, x) <==> InPlan(hot, root, x) || InPlan(more, root, x))
            && (exists root, x :: InPlan(plan, root, x) && !InPlan(hot, root, x))
  {
    hide SymRun, Requested, Spread, InPlan, MergedAll, HotCovers, AllServed;
    var st := Start(hot, splits);
    var more := SymRun(prog, st).s.newHot;
    var plan := MergedAll(hot, more);
    RequestsIff(prog, st);
    forall i | 0 <= i < |more|
      ensures more[i].lo < more[i].hi
    {
      assert more[i] in more;
      RequestIsNew(prog, st, more[i]);
    }
    MergedAllUnion(hot, more);
    forall g | Requested(prog, st, g)
      ensures HotCovers(plan, g.root, g.lo, g.hi)
    {
      RequestIsNew(prog, st, g);
      RequestInPlan(more, g);
      CoversIffBytes(plan, g.root, g.lo, g.hi);
    }
    RequestsServed(prog, st, plan);
    var g := more[0];
    assert g in more;
    RequestIsNew(prog, st, g);
    CoversIffBytes(hot, g.root, g.lo, g.hi);
    RequestInPlan(more, g);
    var x :| g.lo <= x < g.hi && !InPlan(hot, g.root, x);
    assert InPlan(more, g.root, x);
  }

  lemma RequestInPlan(more: seq<Region>, g: Region)
    requires g in more
    ensures forall x :: g.lo <= x < g.hi ==> InPlan(more, g.root, x)
  {
    var i :| 0 <= i < |more| && more[i] == g;
    forall x | g.lo <= x < g.hi
      ensures InPlan(more, g.root, x)
    {
      assert Has(more[i], g.root, x);
    }
  }

  /** In the next pass an access at the same canonical address is served by bytes and asks nothing. */
  lemma ServedIsSettled(plan: seq<Region>, s: Sym, t: Touch, s': Sym, t': Touch)
    requires Served(plan, s, t) && s'.hot == plan && !t.width.Byte?
    requires CanonAddr(t'.base, t'.off) == CanonAddr(t.base, t.off) && t'.width == t.width
    ensures ByBytes(s', t') && ReadMemAt(s', t'.base, t'.off, t'.width).0.newHot == s'.newHot
  {
    hide CanonAddr, HotCovers, Clashes, CellDisp, ReadMemAt;
    ReadMemAtAsks(s', t');
  }
}
