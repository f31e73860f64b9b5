/** The symbolic machine state of the lifter, as a value, and what each of its operations does
    to it. The class in `SymState` performs these operations in place. */
module SymModel {
  import opened Words
  import opened SymExpr

  type Reg = r: nat | r < 11
  /** Instruction offsets are 16-bit signed. */
  type Off = x: int | -0x8000 <= x < 0x8000

  /** The number of leading elements known not to match. */
  function Searched(r: Option<nat>, n: nat): nat {
    if r.Some? then r.value else n
  }

  /** The index of the first element satisfying `p`. */
  function Position<T>(s: seq<T>, p: T -> bool): (r: Option<nat>)
    ensures r.Some? ==> r.value < |s| && p(s[r.value])
    ensures forall j :: 0 <= j < Searched(r, |s|) ==> !p(s[j])
  {
    if |s| == 0 then None
    else
      match Position(s[..|s| - 1], p)
      case Some(i) => Some(i)
      case None => if p(s[|s| - 1]) then Some(|s| - 1) else None
  }

  // ----- fresh names -----

  /** A counter and the queue of indices reserved ahead of their use. */
  datatype Names = Names(next: nat, reserved: seq<nat>)

  function Reserve(n: Names): (Names, nat) {
    (Names(n.next + 1, n.reserved + [n.next]), n.next)
  }

  function Allocate(n: Names): (Names, nat) {
    if |n.reserved| > 0 then (n.(reserved := n.reserved[1..]), n.reserved[0])
    else (n.(next := n.next + 1), n.next)
  }

  // ----- the state -----

  /** A memory cell: `effectiveAddr base off + delta`, with its width and current value. */
  datatype MemCell = MemCell(base: Expr, off: Off, width: Width, value: Expr, delta: nat)

  predicate SameKey(c: MemCell, d: MemCell) {
    c.base == d.base && c.off == d.off && c.width == d.width && c.delta == d.delta
  }

  function CellRoot(c: MemCell): Root {
    CanonAddr(c.base, c.off).root
  }

  function CellDisp(c: MemCell): int {
    CanonAddr(c.base, c.off).disp + c.delta
  }

  datatype Atom = RegAtom(reg: Reg, value: Expr) | MemAtom(cell: MemCell)

  /** The rendering under which a footprint was recorded. */
  datatype SpanKey = CellKey(base: Expr, off: Off, width: Width) | HotKey(base: Expr, off: Off, k: nat)

  datatype Span = Span(root: Root, lo: i64, hi: i64, key: SpanKey)

  datatype OverlapError =
    | Overlap(key: SpanKey, existing: SpanKey)
    | HotLoad(width: Width, base: Expr, off: Off)
    | HotStore(width: Width, base: Expr, off: Off)

  datatype Region = Region(root: Root, lo: int, hi: int)

  datatype Clause = Access(base: Expr, off: Off, width: Width, writable: bool)

  datatype AddrTerm = AddrTerm(base: Expr, off: Off, delta: nat)

  datatype AliasEq = AliasEq(lhs: AddrTerm, rhs: AddrTerm)

  datatype Blob = Blob(root: Root, lo: int, len: int, fill: Option<u8>)

  datatype Sym = Sym(
    regs: map<Reg, Expr>,
    pre: seq<Atom>,
    mem: seq<MemCell>,
    names: Names,
    loadVars: seq<(Name, nat)>,
    walk: seq<Clause>,
    spans: seq<Span>,
    errors: seq<OverlapError>,
    alias: Option<AliasEq>,
    slotAliases: seq<AliasEq>,
    hot: seq<Region>,
    newHot: seq<Region>,
    blobs: seq<Blob>,
    splits: map<(Root, int), int>,
    newSplits: seq<(Root, int, int)>)

  function WithRetryPlans(hot: seq<Region>, splits: map<(Root, int), int>): Sym {
    Sym(map[], [], [], Names(0, []), [], [], [], [], None, [], hot, [], [], splits, [])
  }

  datatype RetryPlan =
    | BlobSplits(splits: seq<(Root, int, int)>)
    | HotRegions(regions: seq<Region>)
    | Ready

  function RetryPlanOf(s: Sym): RetryPlan {
    if |s.newSplits| > 0 then BlobSplits(s.newSplits)
    else if |s.newHot| > 0 then HotRegions(s.newHot)
    else Ready
  }

  // ----- registers -----

  function ReadReg(s: Sym, r: Reg): (Sym, Expr) {
    if r in s.regs then (s, s.regs[r])
    else
      var v := InitReg(RegOld(r));
      (s.(regs := s.regs[r := v], pre := s.pre + [RegAtom(r, v)]), v)
  }

  function WriteReg(s: Sym, r: Reg, v: Expr): Sym {
    var s' := ReadReg(s, r).0;
    s'.(regs := s'.regs[r := v])
  }

  // ----- footprints -----

  predicate Conflicts(e: Span, root: Root, lo: int, hi: int, key: SpanKey) {
    e.root == root && e.key != key && lo < e.hi && e.lo < hi
  }

  function FindConflict(spans: seq<Span>, root: Root, lo: int, hi: int, key: SpanKey): (r: Option<nat>)
    ensures r.Some? ==> r.value < |spans| && Conflicts(spans[r.value], root, lo, hi, key)
    ensures forall j :: 0 <= j < Searched(r, |spans|) ==> !Conflicts(spans[j], root, lo, hi, key)
  {
    Position(spans, e => Conflicts(e, root, lo, hi, key))
  }

  function NoteAccess(s: Sym, base: Expr, off: i64, len: nat, key: SpanKey): Sym {
    var c := CanonAddr(base, off);
    var hi := WrapI(c.disp + len);
    match FindConflict(s.spans, c.root, c.disp, hi, key)
    case Some(i) => s.(errors := s.errors + [Overlap(key, s.spans[i].key)])
    case None => s.(spans := s.spans + [Span(c.root, c.disp, hi, key)])
  }

  predicate Covers(g: Region, root: Root, lo: int, hi: int) {
    g.root == root && g.lo <= lo && hi <= g.hi
  }

  predicate Meets(g: Region, root: Root, lo: int, hi: int) {
    g.root == root && lo < g.hi && g.lo < hi
  }

  predicate HotCovers(hot: seq<Region>, root: Root, lo: int, hi: int) {
    exists i | 0 <= i < |hot| :: Covers(hot[i], root, lo, hi)
  }

  predicate HotIntersects(hot: seq<Region>, root: Root, lo: int, hi: int) {
    exists i | 0 <= i < |hot| :: Meets(hot[i], root, lo, hi)
  }

  /** A cell on the same root that overlaps `[lo, lo + len)` without being that very cell. */
  predicate Clashes(c: MemCell, root: Root, lo: int, w: Width) {
    CellRoot(c) == root
    && !(CellDisp(c) == lo && c.width == w)
    && lo < CellDisp(c) + Len(c.width) && CellDisp(c) < lo + Len(w)
  }

  /** The least region holding `[lo, lo + len)` and every clashing cell among the first `n`. */
  function ClashHull(mem: seq<MemCell>, n: nat, root: Root, lo: int, w: Width): Region
    requires n <= |mem|
  {
    if n == 0 then Region(root, lo, lo + Len(w))
    else
      var g := ClashHull(mem, n - 1, root, lo, w);
      var c := mem[n - 1];
      if !Clashes(c, root, lo, w) then g
      else
        var (cl, ch) := (CellDisp(c), CellDisp(c) + Len(c.width));
        Region(root, if cl < g.lo then cl else g.lo, if ch > g.hi then ch else g.hi)
  }

  predicate AnyClash(mem: seq<MemCell>, root: Root, lo: int, w: Width) {
    exists i | 0 <= i < |mem| :: Clashes(mem[i], root, lo, w)
  }

  function RequestDemotion(s: Sym, root: Root, lo: int, w: Width): Sym {
    if AnyClash(s.mem, root, lo, w) || HotIntersects(s.hot, root, lo, lo + Len(w))
    then s.(newHot := s.newHot + [ClashHull(s.mem, |s.mem|, root, lo, w)])
    else s
  }

  // ----- cells -----

  function TermOf(c: MemCell): AddrTerm {
    AddrTerm(c.base, c.off, c.delta)
  }

  predicate IsByteAt(c: MemCell, root: Root, disp: int) {
    c.width.Byte? && CellRoot(c) == root && CellDisp(c) == disp
  }

  predicate IsExact(c: MemCell, base: Expr, off: Off, w: Width) {
    c.base == base && c.off == off && c.delta == 0 && c.width == w
  }

  predicate IsCanonAt(c: MemCell, root: Root, disp: int, w: Width) {
    c.width == w && CellRoot(c) == root && CellDisp(c) == disp
  }

  function FindByte(mem: seq<MemCell>, root: Root, disp: int): (r: Option<nat>)
    ensures r.Some? ==> r.value < |mem| && IsByteAt(mem[r.value], root, disp)
    ensures forall j :: 0 <= j < Searched(r, |mem|) ==> !IsByteAt(mem[j], root, disp)
  {
    Position(mem, (c: MemCell) => IsByteAt(c, root, disp))
  }

  function FindExact(mem: seq<MemCell>, base: Expr, off: Off, w: Width): (r: Option<nat>)
    ensures r.Some? ==> r.value < |mem| && IsExact(mem[r.value], base, off, w)
    ensures forall j :: 0 <= j < Searched(r, |mem|) ==> !IsExact(mem[j], base, off, w)
  {
    Position(mem, (c: MemCell) => IsExact(c, base, off, w))
  }

  function FindCanon(mem: seq<MemCell>, root: Root, disp: int, w: Width): (r: Option<nat>)
    ensures r.Some? ==> r.value < |mem| && IsCanonAt(mem[r.value], root, disp, w)
    ensures forall j :: 0 <= j < Searched(r, |mem|) ==> !IsCanonAt(mem[j], root, disp, w)
  {
    Position(mem, (c: MemCell) => IsCanonAt(c, root, disp, w))
  }

  /** A cell for this access, and whether it is known under another rendering. */
  datatype Found = Missing | Hit(index: nat, aliased: bool)

  function Lookup(mem: seq<MemCell>, base: Expr, off: Off, w: Width): (f: Found)
    ensures f.Hit? ==> f.index < |mem|
  {
    match FindExact(mem, base, off, w)
    case Some(i) => Hit(i, false)
    case None =>
      var c := CanonAddr(base, off);
      match FindCanon(mem, c.root, c.disp, w)
      case Some(i) => Hit(i, true)
      case None => Missing
  }

  function AddCell(s: Sym, c: MemCell): Sym {
    s.(mem := s.mem + [c], pre := s.pre + [MemAtom(c)])
  }

  function NoteClause(s: Sym, c: Clause): Sym {
    s.(walk := s.walk + [c])
  }

  predicate HasBound(loadVars: seq<(Name, nat)>, n: Name) {
    exists i | 0 <= i < |loadVars| :: loadVars[i].0 == n
  }

  // ----- byte-granular access -----

  /** Serve a slot from cell `i`: an equation when its rendering differs, and a bound for a bare
      variable that has none. */
  function ReuseSlot(s: Sym, i: nat, term: AddrTerm): Sym
    requires i < |s.mem|
  {
    var cell := s.mem[i];
    var v := cell.value;
    s.(slotAliases := if TermOf(cell) == term then s.slotAliases
                      else s.slotAliases + [AliasEq(TermOf(cell), term)],
       loadVars := if v.InitMem? && !HasBound(s.loadVars, v.name) then s.loadVars + [(v.name, 8)]
                   else s.loadVars)
  }

  /** A byte cell of its own for slot `k`, with its bound and footprint. */
  function FreshSlot(s: Sym, base: Expr, off: Off, k: nat): (s': Sym)
    requires k < 8
    ensures |s'.mem| == |s.mem| + 1
  {
    var (names, idx) := Allocate(s.names);
    var n := OldMem(Byte, idx);
    var s1 := s.(names := names, loadVars := s.loadVars + [(n, 8)]);
    var s2 := AddCell(s1, MemCell(base, off, Byte, InitMem(n), k));
    NoteAccess(s2, base, off + k, 1, HotKey(base, off, k))
  }

  /** The byte cell of slot `k` of a wide access: reused under an alias equation when it has
      another rendering, otherwise made fresh. */
  function HotSlot(s: Sym, base: Expr, off: Off, k: nat): (r: (Sym, nat))
    requires k < 8
    ensures r.1 < |r.0.mem|
  {
    var c := CanonAddr(base, off);
    match FindByte(s.mem, c.root, c.disp + k)
    case Some(i) => (ReuseSlot(s, i, AddrTerm(base, off, k)), i)
    case None => (FreshSlot(s, base, off, k), |s.mem|)
  }

  /** Slots `k`, `k + 1`, ..., 7 of a dword load, lowest first. */
  function HotLoadSlots(s: Sym, base: Expr, off: Off, k: nat): (r: (Sym, seq<Expr>))
    requires k <= 8
    ensures |r.1| == 8 - k
    decreases 8 - k
  {
    if k == 8 then (s, [])
    else
      var (s1, i) := HotSlot(s, base, off, k);
      var (s2, vs) := HotLoadSlots(s1, base, off, k + 1);
      (s2, [s1.mem[i].value] + vs)
  }

  function ReadHotWide(s: Sym, base: Expr, off: Off, w: Width): (Sym, Expr) {
    if !w.Dword? then
      (s.(errors := s.errors + [HotLoad(w, base, off)]), Raw(Rendering(Placeholder, [])))
    else
      var (s1, vs) := HotLoadSlots(s, base, off, 0);
      (NoteClause(s1, Access(base, off, Dword, false)), ByteCombo(vs))
  }

  function SetValue(s: Sym, i: nat, v: Expr): Sym
    requires i < |s.mem|
  {
    s.(mem := s.mem[i := s.mem[i].(value := v)])
  }

  function HotStoreSlots(s: Sym, base: Expr, off: Off, imm: i64, k: nat): Sym
    requires k <= 4
    decreases 4 - k
  {
    if k == 4 then s
    else
      var (s1, i) := HotSlot(s, base, off, k);
      HotStoreSlots(SetValue(s1, i, Const(ByteOf(WrapU(imm), k))), base, off, imm, k + 1)
  }

  function WriteHotWordImm(s: Sym, base: Expr, off: Off, imm: i64): Sym {
    NoteClause(HotStoreSlots(s, base, off, imm, 0), Access(base, off, Word, true))
  }

  // ----- loads -----

  predicate HoldsBlob(b: Blob, root: Root, lo: int) {
    b.root == root && b.lo <= lo && lo + 8 <= b.lo + b.len
  }

  /** A dword read at the last eight bytes of a blob asks for a tail split. */
  function PlanSplit(s: Sym, root: Root, lo: int): Sym {
    match Position(s.blobs, b => HoldsBlob(b, root, lo))
    case None => s
    case Some(i) =>
      var b := s.blobs[i];
      var rel := lo - b.lo;
      if rel + 8 == b.len && (b.root, b.lo) !in s.splits
      then s.(newSplits := s.newSplits + [(b.root, b.lo, rel)]) else s
  }

  function LoadBound(w: Width, n: Name): seq<(Name, nat)> {
    if w.Byte? then [] else [(n, 8 * Len(w))]
  }

  /** An access that no cell covers: a fresh variable, its atom and its footprint. */
  function FreshCell(s: Sym, base: Expr, off: Off, w: Width): (Sym, Expr) {
    var (names, idx) := Allocate(s.names);
    var n := OldMem(w, idx);
    var s1 := s.(names := names, loadVars := s.loadVars + LoadBound(w, n));
    var s2 := NoteAccess(s1, base, off, Len(w), CellKey(base, off, w));
    var s3 := AddCell(s2, MemCell(base, off, w, InitMem(n), 0));
    (NoteClause(s3, Access(base, off, w, false)), InitMem(n))
  }

  /** An access served by cell `i`: the clause and, under another rendering, the equation. */
  function UseCell(s: Sym, base: Expr, off: Off, w: Width, i: nat, aliased: bool, writable: bool): Sym
    requires i < |s.mem|
  {
    var c := s.mem[i];
    if aliased then
      NoteClause(s.(alias := Some(AliasEq(AddrTerm(base, off, 0), TermOf(c)))),
                 Access(c.base, c.off, w, writable))
    else NoteClause(s, Access(base, off, w, writable))
  }

  function LoadCell(s: Sym, base: Expr, off: Off, w: Width): (Sym, Expr) {
    match Lookup(s.mem, base, off, w)
    case Hit(i, aliased) => (UseCell(s, base, off, w, i, aliased, false), s.mem[i].value)
    case Missing => FreshCell(s, base, off, w)
  }

  function ReadMemAt(s: Sym, base: Expr, off: Off, w: Width): (Sym, Expr) {
    if w.Byte? then LoadCell(s, base, off, w)
    else
      var c := CanonAddr(base, off);
      var s1 := if w.Dword? then PlanSplit(s, c.root, c.disp) else s;
      if HotCovers(s1.hot, c.root, c.disp, c.disp + Len(w)) then ReadHotWide(s1, base, off, w)
      else LoadCell(RequestDemotion(s1, c.root, c.disp, w), base, off, w)
  }

  function ReadMem(s: Sym, r: Reg, off: Off, w: Width): (Sym, Expr) {
    var (s1, base) := ReadReg(s, r);
    ReadMemAt(s1, base, off, w)
  }

  // ----- stores -----

  /** The state in which a store finds its cell: a missing cell is read first, without keeping
      the read's clause. */
  function Materialized(s: Sym, base: Expr, off: Off, w: Width): Sym {
    if Lookup(s.mem, base, off, w).Missing? then
      var loaded := ReadMemAt(s, base, off, w).0;
      if |loaded.walk| > 0 then loaded.(walk := loaded.walk[..|loaded.walk| - 1]) else loaded
    else s
  }

  /** The new value goes into the cell found for the access. */
  function StoreInto(s: Sym, base: Expr, off: Off, w: Width, value: Expr): Sym {
    match Lookup(s.mem, base, off, w)
    case Hit(i, aliased) => UseCell(SetValue(s, i, value), base, off, w, i, aliased, true)
    case Missing => s
  }

  function StoreCell(s: Sym, base: Expr, off: Off, w: Width, value: Expr): Sym {
    StoreInto(Materialized(s, base, off, w), base, off, w, value)
  }

  /** A store into a byte-granular region: only a word immediate is supported. */
  function StoreHot(s: Sym, base: Expr, off: Off, w: Width, value: Expr): Sym {
    if w.Word? && value.StImm? && value.width.Word? then WriteHotWordImm(s, base, off, value.imm)
    else s.(errors := s.errors + [HotStore(w, base, off)])
  }

  /** A store not inside such a region, given up when it still meets one. */
  function StoreCold(s: Sym, c: Canon, base: Expr, off: Off, w: Width, value: Expr): Sym {
    var s1 := RequestDemotion(s, c.root, c.disp, w);
    if HotIntersects(s1.hot, c.root, c.disp, c.disp + Len(w)) then s1 else StoreCell(s1, base, off, w, value)
  }

  function WriteMemAt(s: Sym, base: Expr, off: Off, w: Width, value: Expr): Sym {
    if w.Byte? then StoreCell(s, base, off, w, value)
    else
      var c := CanonAddr(base, off);
      if HotCovers(s.hot, c.root, c.disp, c.disp + Len(w)) then StoreHot(s, base, off, w, value)
      else StoreCold(s, c, base, off, w, value)
  }

  function WriteMem(s: Sym, r: Reg, off: Off, w: Width, value: Expr): Sym {
    var (s1, base) := ReadReg(s, r);
    WriteMemAt(s1, base, off, w, value)
  }

  // ----- postcondition -----

  /** The value of the first cell with the atom's key; the source's placeholder otherwise. */
  function PostValue(mem: seq<MemCell>, c: MemCell): Expr {
    match Position(mem, d => SameKey(d, c))
    case Some(i) => mem[i].value
    case None => InitMem(Other("?"))
  }

  function PostAtom(a: Atom, s: Sym): Atom {
    match a
    case RegAtom(r, _) =>
      RegAtom(r, if r in s.regs then s.regs[r] else InitReg(RegOld(r)))
    case MemAtom(c) => MemAtom(c.(value := PostValue(s.mem, c)))
  }

  function PostAtoms(pre: seq<Atom>, s: Sym): (post: seq<Atom>)
    ensures |post| == |pre|
    ensures forall i :: 0 <= i < |pre| ==> post[i] == PostAtom(pre[i], s)
  {
    if |pre| == 0 then []
    else PostAtoms(pre[..|pre| - 1], s) + [PostAtom(pre[|pre| - 1], s)]
  }
}
